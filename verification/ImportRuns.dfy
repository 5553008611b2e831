/** Runs of clicks on the import preview. */
module ImportRuns {
  import opened Forest
  import opened Wrappers
  import opened ImportTree
  import opened ImportPlacement
  import opened ImportSelection

  /** A row of the tree over part: a plan item, the heading over environments, or the destination. */
  predicate Displayed(part: seq<Item>, n: Node) {
    n in SubnodesOfAll(ItemTree(part)) || (n.data == Destination && n.children == ItemTree(part))
  }

  ghost function CoveredRows(n: Node): set<string> {
    RowIds(CollectRows(n))
  }

  /** The rows beneath a row are closed downwards, and going up from one of them stays inside until
      it passes the row itself. */
  ghost predicate Cut(items: seq<Item>, n: Node) {
    var ps := ParentsOf(items);
    var covered := CoveredRows(n);
    && (forall r :: r in CollectRows(n) && r.ItemRow? ==> r.item in items)
    && (forall x :: x in covered ==> Rooted(ps, x))
    && (forall x, y :: x in covered && Below(ps, y, x) ==> y in covered)
    && (forall x, a :: x in covered && a in Ancestors(ps, x, {}) ==>
          a in covered || (n.data.ItemRow? && a in Ancestors(ps, n.key, {})))
    && (n.data.ItemRow? ==>
          n.data.item in items && n.key == n.data.item.modelId && Rooted(ps, n.key) &&
          forall x :: x in covered ==> Below(ps, x, n.key))
  }

  // ---------------------------------------------------------------- every displayed row is a cut

  lemma {:induction false} RowIdsAreItems(rows: seq<Row>)
    ensures forall x :: x in RowIds(rows) <==> exists i :: i in ItemsOn(rows) && i.modelId == x
    ensures forall i :: i in ItemsOn(rows) <==> ItemRow(i) in rows
  {
    if rows != [] {
      RowIdsAreItems(rows[1..]);
      assert rows == [rows[0]] + rows[1..];
      forall i
        ensures i in ItemsOn(rows) <==> ItemRow(i) in rows
      {
      }
      forall x
        ensures x in RowIds(rows) <==> exists i :: i in ItemsOn(rows) && i.modelId == x
      {
        if x in RowIds(rows) {
          var r :| r in rows && r.ItemRow? && r.item.modelId == x;
          assert ItemRow(r.item) == r && r.item in ItemsOn(rows);
        }
        if i :| i in ItemsOn(rows) && i.modelId == x { assert ItemRow(i) in rows; }
      }
    }
  }

  lemma {:induction false} ItemIsCut(items: seq<Item>, n: Node)
    requires Unique(items) && InTree(items, n)
    ensures Cut(items, n)
  {
    hide ItemTree, SubnodesOfAll, NodeFor, NodesFor, RowOrder, CollectRows, ParentsOf, RowIds, Represents, Ancestors,
         Up;
    var ps := ParentsOf(items);
    var s, d := ItemNodeOfTree(items, n);
    MadeNodeHolds(items, n.data.item, s, d);
    RowIdsAreKeys(items, n);
    assert Rooted(ps, n.key);
    forall x | x in CoveredRows(n)
      ensures Rooted(ps, x)
    {
      BelowRooted(ps, x, n.key);
    }
    forall x, y | x in CoveredRows(n) && Below(ps, y, x)
      ensures y in CoveredRows(n)
    {
      BelowRooted(ps, y, x);
      BelowTransitive(ps, y, x, n.key);
    }
    forall x, a | x in CoveredRows(n) && a in Ancestors(ps, x, {})
      ensures a in CoveredRows(n) || a in Ancestors(ps, n.key, {})
    {
      var e: nat :| RootedAt(ps, x, e);
      ChainLinear(ps, x, e, a, n.key);
    }
  }

  lemma {:induction false} GroupIsCut(items: seq<Item>, n: Node)
    requires Unique(items) && n in SubnodesOfAll(ItemTree(items)) && !n.data.ItemRow?
    ensures Cut(items, n)
  {
    hide NodeFor, NodesFor, RowOrder, CollectRows, ParentsOf, RowIds, Represents, Ancestors, Up, ItemTree,
         SubnodesOfAll,
      KidsIn, Environments, RootOrder;
    var ps, list := ParentsOf(items), Environments(items);
    TreeIsRootNodes(items);
    GroupRows(items, n);
    forall x | x in CoveredRows(n)
      ensures Rooted(ps, x)
    {
      var c :| c in IdsOf(list) && Below(ps, x, c);
      BelowRooted(ps, x, c);
    }
    forall x, y | x in CoveredRows(n) && Below(ps, y, x)
      ensures y in CoveredRows(n)
    {
      var c :| c in IdsOf(list) && Below(ps, x, c);
      BelowRooted(ps, x, c);
      BelowRooted(ps, y, x);
      BelowTransitive(ps, y, x, c);
    }
    forall x, a | x in CoveredRows(n) && a in Ancestors(ps, x, {})
      ensures a in CoveredRows(n)
    {
      var c :| c in IdsOf(list) && Below(ps, x, c);
      BelowRooted(ps, x, c);
      var e: nat :| RootedAt(ps, x, e);
      ChainLinear(ps, x, e, a, c);
      AncestorsUnfold(ps, c);
    }
  }

  lemma GroupRows(items: seq<Item>, n: Node)
    requires Unique(items) && n.data == Group && n.children == NodesFor(items, Environments(items), {})
    ensures var ps, list := ParentsOf(items), IdsOf(Environments(items));
            && (forall x :: x in CoveredRows(n) <==> exists c :: c in list && Below(ps, x, c))
            && (forall c :: c in list ==> Rooted(ps, c) && Up(ps, c).None?)
    ensures forall r :: r in CollectRows(n) && r.ItemRow? ==> r.item in items
  {
    hide NodesFor, ParentsOf, Represents, Ancestors, KidsIn, Environments, Up, Unique, Linked;
    var ps, list := ParentsOf(items), Environments(items);
    var ids := IdsOf(list);
    EnvironmentIds(items);
    ParentsKeys(items);
    LinkedItems(items);
    ShapeOfNodes(items, list, {});
    NodesRepresent(items, list, {});
    RowsAreKeysOfAll(items, n.children);
    NothingShallow(ps);
    GrowAllHoldsSubtrees(ps, KidsIn(items), ids, {}, 0, None);
    var rows, keys := RowsOfAll(n.children), KeysOfAll(Shapes(n.children));
    assert CollectRows(n) == [Group] + rows;
    RowIdsByKeys(rows, keys);
    forall x
      ensures x in CoveredRows(n) <==> x in keys
    {
      assert RowIds([Group] + rows) == RowIds(rows);
    }
    forall c | c in ids ensures Rooted(ps, c) { assert RootedAt(ps, c, 0); }
  }

  lemma RowIdsByKeys(rows: seq<Row>, keys: seq<string>)
    requires |rows| == |keys|
    requires forall k :: 0 <= k < |rows| ==> rows[k].ItemRow? && rows[k].item.modelId == keys[k]
    ensures forall x :: x in RowIds(rows) <==> x in keys
  {
    forall x
      ensures x in RowIds(rows) <==> x in keys
    {
      if x in keys {
        var k :| 0 <= k < |keys| && keys[k] == x;
        assert rows[k] in rows;
      }
      if x in RowIds(rows) {
        var r :| r in rows && r.ItemRow? && r.item.modelId == x;
        var k :| 0 <= k < |rows| && rows[k] == r;
        assert keys[k] == x;
      }
    }
  }

  lemma {:induction false} EnvironmentIds(items: seq<Item>)
    requires Unique(items)
    ensures Distinct(IdsOf(Environments(items)))
    ensures forall c :: c in IdsOf(Environments(items)) ==>
              c in ParentsOf(items) && Up(ParentsOf(items), c).None? && RootedAt(ParentsOf(items), c, 0)
    ensures forall i :: i in Environments(items) ==> i in items
  {
    var roots := RootsIn(items, Ids(items));
    WhereUnique(items, (i: Item) => !HasParent(Ids(items), i));
    KindUnique(roots, Environment);
    IdsMember(Environments(items), "");
    forall c | c in IdsOf(Environments(items))
      ensures c in ParentsOf(items) && Up(ParentsOf(items), c).None?
    {
      IdsMember(Environments(items), c);
      ParentsKeys(items);
    }
  }

  lemma {:induction false} DestinationIsCut(items: seq<Item>, n: Node)
    requires Unique(items) && n.data == Destination && n.children == ItemTree(items)
    ensures Cut(items, n)
  {
    hide ItemTree, ParentsOf, RowIds, Ancestors, Up, ItemsOn, RowsOfAll, Unique;
    var ps := ParentsOf(items);
    var rows := RowsOfAll(ItemTree(items));
    PlacedOnceIffRooted(items);
    ParentsKeys(items);
    assert CollectRows(n) == [Destination] + rows;
    RowIdsAreItems(rows);
    assert CoveredRows(n) == RowIds(rows) by { DestinationAddsNoItem(rows); }
    forall x | x in ps && Rooted(ps, x)
      ensures x in CoveredRows(n)
    {
      var i :| i in items && i.modelId == x;
      assert i in ItemsOn(rows);
    }
    forall x, y | x in CoveredRows(n) && Below(ps, y, x)
      ensures y in CoveredRows(n)
    {
      BelowRooted(ps, y, x);
      RootedKnown(ps, y);
    }
    forall x, a | x in CoveredRows(n) && a in Ancestors(ps, x, {})
      ensures a in CoveredRows(n)
    {
      AncestorRooted(ps, x, a);
      RootedKnown(ps, a);
    }
  }

  lemma DestinationAddsNoItem(rows: seq<Row>)
    ensures RowIds([Destination] + rows) == RowIds(rows)
  {
  }

  lemma RootedKnown(ps: Parents, x: string)
    requires Rooted(ps, x)
    ensures x in ps
  {
  }

  lemma {:induction false} PartRooted(items: seq<Item>, part: seq<Item>, id: string, d: nat)
    requires Unique(items) && WholeFamilies(items, part) && RootedAt(ParentsOf(part), id, d)
    ensures RootedAt(ParentsOf(items), id, d)
    decreases d
  {
    ParentsKeys(part);
    ParentsKeys(items);
    PartUp(items, part, id);
    if d > 0 { PartRooted(items, part, Up(ParentsOf(part), id).value, d - 1); }
  }

  /** Every row on show is a cut of the whole plan, also when each workspace has its own tree. */
  lemma {:induction false} DisplayedIsCut(items: seq<Item>, part: seq<Item>, n: Node)
    requires Unique(items) && WholeFamilies(items, part) && Displayed(part, n)
    ensures Cut(items, n)
  {
    hide ItemTree, ParentsOf, Ancestors, Up, CollectRows, SubnodesOfAll, Unique, WholeFamilies;
    assert Unique(part) && (forall i :: i in part ==> i in items) by { PartIsUnique(items, part); }
    if n in SubnodesOfAll(ItemTree(part)) {
      if n.data.ItemRow? { ItemIsCut(part, n); } else { GroupIsCut(part, n); }
    } else {
      DestinationIsCut(part, n);
    }
    CutOfPart(items, part, n);
  }

  lemma PartIsUnique(items: seq<Item>, part: seq<Item>)
    requires WholeFamilies(items, part)
    ensures Unique(part) && (forall i :: i in part ==> i in items)
  {
  }

  lemma CutOfPart(items: seq<Item>, part: seq<Item>, n: Node)
    requires Unique(items) && WholeFamilies(items, part) && Cut(part, n)
    ensures Cut(items, n)
  {
    hide ParentsOf, Ancestors, Up, CollectRows, Unique;
    var ps, local := ParentsOf(items), ParentsOf(part);
    forall x | x in CoveredRows(n)
      ensures x in Ids(part) && Rooted(ps, x) && Ancestors(local, x, {}) == Ancestors(ps, x, {})
    {
      PartSame(items, part, x);
    }
    if n.data.ItemRow? { PartSame(items, part, n.key); }
    forall x, y | x in CoveredRows(n) && Below(ps, y, x)
      ensures y in CoveredRows(n)
    {
      if y != x {
        PartDescendants(items, part, y, x, {});
        PartAncestors(items, part, y, {});
      }
      assert Below(local, y, x);
    }
  }

  lemma PartSame(items: seq<Item>, part: seq<Item>, x: string)
    requires Unique(items) && WholeFamilies(items, part) && Rooted(ParentsOf(part), x)
    ensures x in Ids(part) && Rooted(ParentsOf(items), x)
    ensures Ancestors(ParentsOf(part), x, {}) == Ancestors(ParentsOf(items), x, {})
  {
    ParentsKeys(part);
    var d: nat :| RootedAt(ParentsOf(part), x, d);
    PartRooted(items, part, x, d);
    PartAncestors(items, part, x, {});
  }

  // ---------------------------------------------------------------- one click

  lemma {:induction false} TogglablesAreItems(rows: seq<Row>)
    ensures forall i :: i in TogglablesOn(rows) <==> ItemRow(i) in rows && Togglable(i)
  {
    if rows != [] {
      TogglablesAreItems(rows[1..]);
      assert rows == [rows[0]] + rows[1..];
    }
  }

  /** What a click on n decides, by id. */
  lemma TargetsSpelled(items: seq<Item>, n: Node, checked: bool, x: string)
    requires Unique(items) && Cut(items, n) && x in ById(items)
    ensures x in Targets(items, n, checked) <==>
            || (x in CoveredRows(n) && Togglable(ById(items)[x]))
            || (checked && n.data.ItemRow? &&
                x in Ancestors(ParentsOf(items), n.key, {}) && MissingFolder(ById(items)[x]))
  {
    hide ParentsOf, Ancestors, AncestorItems, CollectRows, TogglablesOn;
    ByIdLookup(items);
    var i := ById(items)[x];
    TogglablesAreItems(CollectRows(n));
    assert x in CoveredIds(n) <==> x in CoveredRows(n) && Togglable(i) by {
      if x in CoveredIds(n) {
        var t :| t in TogglableItems(n) && t.modelId == x;
        assert ItemRow(t).item == t;
      }
      if x in CoveredRows(n) {
        var r :| r in CollectRows(n) && r.ItemRow? && r.item.modelId == x;
        assert r == ItemRow(i);
      }
    }
    if n.data.ItemRow? {
      AncestorsFound(items, n.key);
    }
  }

  /** The import is going to act on i: a conflict by taking the source's side, anything else with a
      checkbox by that checkbox. */
  predicate Applied(i: Item) {
    if i.action == Conflict then i.resolution == Some(TakeSource) else Togglable(i) && i.selected
  }

  /** x is to be applied although the missing folder a above it is not. Committing the plan then
      passes over x if it was to be written. */
  ghost predicate Stranded(items: seq<Item>, x: string, a: string) {
    && x in ById(items) && a in ById(items) && a in Ancestors(ParentsOf(items), x, {})
    && Applied(ById(items)[x])
    && MissingFolder(ById(items)[a]) && !ById(items)[a].selected
  }

  ghost predicate NoneStranded(items: seq<Item>) {
    forall x, a :: !Stranded(items, x, a)
  }

  /** A stranded item that has a checkbox. */
  ghost predicate Orphaned(items: seq<Item>, x: string, a: string) {
    Stranded(items, x, a) && Togglable(ById(items)[x])
  }

  ghost predicate NoOrphans(items: seq<Item>) {
    forall x, a :: !Orphaned(items, x, a)
  }

  /** A click never leaves an item selected by its checkbox without a missing folder it needs,
      unless that item lacked that folder before. */
  lemma ClickAddsNoOrphan(items: seq<Item>, n: Node, checked: bool, x: string, a: string)
    requires Unique(items) && Cut(items, n)
    requires Orphaned(Reselect(items, Targets(items, n, checked), checked), x, a)
    ensures Orphaned(items, x, a)
  {
    hide ParentsOf, Ancestors, ById, Targets, CollectRows, RowIds;
    var after := Reselect(items, Targets(items, n, checked), checked);
    var ps := ParentsOf(items);
    ByIdLookup(items);
    ReselectLookup(items, Targets(items, n, checked), checked);
    SkeletonParents(items, after);
    TargetsSpelled(items, n, checked, x);
    TargetsSpelled(items, n, checked, a);
    if n.data.ItemRow? && x in Ancestors(ps, n.key, {}) {
      AncestorRooted(ps, n.key, x);
      BelowTransitive(ps, n.key, x, a);
      NotMutual(ps, n.key, x);
    }
    assert Below(ps, x, a);
  }

  /** Unchecking n takes the missing folder a away from the conflict x beneath it, which stays taken
      from the source. */
  ghost predicate UncheckStrands(items: seq<Item>, n: Node, checked: bool, x: string, a: string) {
    && x in ById(items) && a in ById(items) && a in Ancestors(ParentsOf(items), x, {})
    && ById(items)[x].action == Conflict && Applied(ById(items)[x])
    && MissingFolder(ById(items)[a]) && ById(items)[a].selected
    && !checked && a in CoveredRows(n)
  }

  /** Exactly when a click strands an item that was not stranded before. */
  lemma ClickStrandsIff(items: seq<Item>, n: Node, checked: bool, x: string, a: string)
    requires Unique(items) && Cut(items, n)
    ensures !Stranded(items, x, a) && Stranded(Reselect(items, Targets(items, n, checked), checked), x, a) <==>
            UncheckStrands(items, n, checked, x, a)
  {
    hide ParentsOf, Ancestors, ById, Targets, CollectRows, RowIds, Cut, Below, Unique, SameSkeleton, Reselect;
    var targets := Targets(items, n, checked);
    var after := Reselect(items, targets, checked);
    ByIdLookup(items);
    ReselectLookup(items, targets, checked);
    SkeletonParents(items, after);
    if x in ById(items) && a in ById(items) {
      TargetsSpelled(items, n, checked, a);
      if !Stranded(items, x, a) && Orphaned(after, x, a) { ClickAddsNoOrphan(items, n, checked, x, a); }
    }
  }

  lemma NotMutual(ps: Parents, x: string, y: string)
    requires Rooted(ps, x) && y in Ancestors(ps, x, {})
    ensures x !in Ancestors(ps, y, {})
  {
    var d: nat :| RootedAt(ps, x, d);
    AncestorsAreChain(ps, x, d, {});
    ChainMember(ps, x, d, y);
    var e: nat :| e < d && RootedAt(ps, y, e);
    AncestorsAreChain(ps, y, e, {});
    if x in Chain(ps, y, e) { ChainMember(ps, y, e, x); }
  }

  /** After a click that decides anything, the clicked row shows what was asked for. */
  lemma ClickedStatus(items: seq<Item>, n: Node, checked: bool)
    requires Unique(items) && Cut(items, n)
    ensures var targets := Targets(items, n, checked);
            NodeStatus(ReselectNode(n, targets, checked)) ==
            if NodeStatus(n) == Hidden then Hidden else Checked(checked)
  {
    hide Targets, CollectRows, ReselectNode, Choose;
    var targets := Targets(items, n, checked);
    ReselectedRows(n, targets, checked);
    ReselectedTogglables(CollectRows(n), targets, checked);
    var before, after := TogglableItems(n), TogglableItems(ReselectNode(n, targets, checked));
    assert forall k :: 0 <= k < |before| ==> before[k].modelId in targets by { CoveredAreTargets(items, n, checked); }
    assert forall k :: 0 <= k < |after| ==> after[k].selected == checked by {
      forall k | 0 <= k < |after| ensures after[k].selected == checked { ChosenIsSet(before[k], targets, checked); }
    }
    AllSelected(after, checked);
  }

  lemma ChosenIsSet(i: Item, targets: set<string>, checked: bool)
    requires i.modelId in targets
    ensures Choose(i, targets, checked).selected == checked
  {
  }

  lemma CoveredAreTargets(items: seq<Item>, n: Node, checked: bool)
    ensures forall i :: i in TogglableItems(n) ==> i.modelId in Targets(items, n, checked)
  {
  }

  lemma {:induction false} AllSelected(items: seq<Item>, value: bool)
    requires forall k :: 0 <= k < |items| ==> items[k].selected == value
    ensures Selected(items) == if value then items else []
  {
    if items != [] { AllSelected(items[1..], value); }
  }

  function ReselectRow(r: Row, targets: set<string>, checked: bool): Row {
    if r.ItemRow? then ItemRow(Choose(r.item, targets, checked)) else r
  }

  function ReselectRows(rows: seq<Row>, targets: set<string>, checked: bool): seq<Row> {
    if rows == [] then [] else [ReselectRow(rows[0], targets, checked)] + ReselectRows(rows[1..], targets, checked)
  }

  /** The same place in the tree after the items were reselected. */
  function ReselectNode(n: Node, targets: set<string>, checked: bool): Node {
    Node(n.key, ReselectRow(n.data, targets, checked), ReselectNodes(n.children, targets, checked))
  }

  function ReselectNodes(ns: seq<Node>, targets: set<string>, checked: bool): seq<Node> {
    if ns == [] then [] else [ReselectNode(ns[0], targets, checked)] + ReselectNodes(ns[1..], targets, checked)
  }

  lemma {:induction false} ReselectRowsConcat(a: seq<Row>, b: seq<Row>, targets: set<string>, checked: bool)
    ensures ReselectRows(a + b, targets, checked) ==
            ReselectRows(a, targets, checked) + ReselectRows(b, targets, checked)
  {
    if a == [] {
      assert a + b == b;
    } else {
      assert (a + b)[0] == a[0] && (a + b)[1..] == a[1..] + b;
      ReselectRowsConcat(a[1..], b, targets, checked);
    }
  }

  lemma {:induction false} ReselectedRows(n: Node, targets: set<string>, checked: bool)
    ensures CollectRows(ReselectNode(n, targets, checked)) == ReselectRows(CollectRows(n), targets, checked)
    decreases n
  {
    ReselectedRowsOfAll(n.children, targets, checked);
  }

  lemma {:induction false} ReselectedRowsOfAll(ns: seq<Node>, targets: set<string>, checked: bool)
    ensures RowsOfAll(ReselectNodes(ns, targets, checked)) == ReselectRows(RowsOfAll(ns), targets, checked)
    decreases ns
  {
    if ns != [] {
      ReselectedRows(ns[0], targets, checked);
      ReselectedRowsOfAll(ns[1..], targets, checked);
      ReselectRowsConcat(CollectRows(ns[0]), RowsOfAll(ns[1..]), targets, checked);
    }
  }

  lemma {:induction false} ReselectedTogglables(rows: seq<Row>, targets: set<string>, checked: bool)
    ensures var before, after := TogglablesOn(rows), TogglablesOn(ReselectRows(rows, targets, checked));
            |after| == |before| && forall k :: 0 <= k < |before| ==> after[k] == Choose(before[k], targets, checked)
  {
    if rows != [] {
      var rest := ReselectRows(rows[1..], targets, checked);
      assert ReselectRows(rows, targets, checked) == [ReselectRow(rows[0], targets, checked)] + rest;
      ReselectedTogglables(rows[1..], targets, checked);
      TogglablesCons(rows[0], rows[1..]);
      TogglablesCons(ReselectRow(rows[0], targets, checked), rest);
      hide TogglablesOn, ReselectRows;
    }
  }

  lemma TogglablesCons(r: Row, rest: seq<Row>)
    ensures TogglablesOn([r] + rest) ==
            (match TogglableItem(r) case Some(i) => [i] case None => []) + TogglablesOn(rest)
  {
    assert ([r] + rest)[1..] == rest;
  }

  /** Checking a row selects nothing that is not needed: any selection without orphans that keeps
      what was selected and has the row's own items contains the result. */
  lemma {:induction false} CheckIsLeast(items: seq<Item>, n: Node, other: seq<Item>, x: string)
    requires Unique(items) && Cut(items, n) && NodeStatus(n) != Hidden
    requires SameSkeleton(items, other) && NoOrphans(other) && x in ById(items)
    requires forall y :: y in ById(items) && y in ById(other) && ById(items)[y].selected ==> ById(other)[y].selected
    requires forall y :: y in CoveredRows(n) && y in ById(other) && Togglable(ById(other)[y]) ==>
             ById(other)[y].selected
    ensures x in ById(other)
    ensures ById(Reselect(items, Targets(items, n, true), true)).Keys == ById(items).Keys
    ensures ById(Reselect(items, Targets(items, n, true), true))[x].selected ==> ById(other)[x].selected
  {
    hide ParentsOf, Ancestors, ById, Targets, CollectRows, RowIds, Unique, TogglablesOn;
    var ps := ParentsOf(items);
    ByIdLookup(items);
    ReselectLookup(items, Targets(items, n, true), true);
    SkeletonParents(items, other);
    SkeletonLookup(items, other, x);
    TargetsSpelled(items, n, true, x);
    if n.data.ItemRow? && x in Ancestors(ps, n.key, {}) && MissingFolder(ById(items)[x]) {
      var c := TogglableItems(n)[0];
      TogglablesAreItems(CollectRows(n));
      assert c.modelId in CoveredRows(n) by { CoveredByRow(n, c); }
      SkeletonLookup(items, other, c.modelId);
      BelowTransitive(ps, c.modelId, n.key, x);
      NotMutual(ps, n.key, x);
      assert !Orphaned(other, c.modelId, x);
    }
  }

  lemma CoveredByRow(n: Node, i: Item)
    requires ItemRow(i) in CollectRows(n)
    ensures i.modelId in CoveredRows(n)
  {
    assert ItemRow(i).item == i;
  }

  lemma {:induction false} SkeletonLookup(a: seq<Item>, b: seq<Item>, x: string)
    requires SameSkeleton(a, b)
    ensures x in ById(a) <==> x in ById(b)
    ensures x in ById(a) ==>
              ById(b)[x] == ById(a)[x].(selected := ById(b)[x].selected, resolution := ById(b)[x].resolution)
  {
    if a != [] { SkeletonLookup(a[..|a| - 1], b[..|a| - 1], x); }
  }

  // ---------------------------------------------------------------- the tree is rebuilt in place

  lemma {:induction false} ReselectConcat(a: seq<Item>, b: seq<Item>, targets: set<string>, checked: bool)
    ensures Reselect(a + b, targets, checked) == Reselect(a, targets, checked) + Reselect(b, targets, checked)
  {
  }

  /** Filtering by anything but the selection commutes with reselecting. */
  lemma {:induction false} ReselectedWhere(items: seq<Item>, keep: Item -> bool, targets: set<string>, checked: bool)
    requires forall i :: keep(Choose(i, targets, checked)) == keep(i)
    ensures Where(Reselect(items, targets, checked), keep) == Reselect(Where(items, keep), targets, checked)
  {
    if items != [] {
      hide Where, Reselect;
      var n := |items| - 1;
      var init, last := items[..n], items[n];
      assert items == init + [last];
      ReselectedWhere(init, keep, targets, checked);
      ReselectPush(init, last, targets, checked);
      WherePush(init, last, keep);
      WherePush(Reselect(init, targets, checked), Choose(last, targets, checked), keep);
      ReselectPush(Where(init, keep), last, targets, checked);
      assert Where(init, keep) + [] == Where(init, keep);
    } else {
      NothingWhere(keep, targets, checked);
    }
  }

  lemma NothingWhere(keep: Item -> bool, targets: set<string>, checked: bool)
    ensures Where([], keep) == [] && Reselect([], targets, checked) == []
  {
  }

  lemma ReselectPush(items: seq<Item>, i: Item, targets: set<string>, checked: bool)
    ensures Reselect(items + [i], targets, checked) == Reselect(items, targets, checked) + [Choose(i, targets, checked)]
  {
    assert (items + [i])[..|items|] == items;
  }

  lemma {:induction false} ReselectedByKind(items: seq<Item>, targets: set<string>, checked: bool)
    ensures ByKind(Reselect(items, targets, checked)) == Reselect(ByKind(items), targets, checked)
  {
    hide Where, Reselect;
    ReselectedWhere(items, (i: Item) => i.model == Environment, targets, checked);
    ReselectedWhere(items, (i: Item) => i.model == Folder, targets, checked);
    ReselectedWhere(items, (i: Item) => i.model == Request, targets, checked);
    ReselectConcat(OfKind(items, Environment), OfKind(items, Folder), targets, checked);
    ReselectConcat(OfKind(items, Environment) + OfKind(items, Folder), OfKind(items, Request), targets, checked);
  }

  lemma {:induction false} ReselectedOrder(items: seq<Item>, id: string, targets: set<string>, checked: bool)
    ensures Ids(Reselect(items, targets, checked)) == Ids(items)
    ensures RowOrder(Reselect(items, targets, checked), id) == Reselect(RowOrder(items, id), targets, checked)
  {
    SkeletonIds(items, Reselect(items, targets, checked));
    ReselectedWhere(items, (i: Item) => i.parentId == Some(id), targets, checked);
    assert Reselect([], targets, checked) == [];
    ReselectedByKind(if id in Ids(items) then ChildrenIn(items, id) else [], targets, checked);
  }

  lemma {:induction false} ReselectedNode(
    items: seq<Item>, item: Item, seen: set<string>, targets: set<string>, checked: bool)
    requires item.modelId in Ids(items)
    ensures Choose(item, targets, checked).modelId in Ids(Reselect(items, targets, checked))
    ensures NodeFor(Reselect(items, targets, checked), Choose(item, targets, checked), seen) ==
            ReselectNode(NodeFor(items, item, seen), targets, checked)
    decreases |Ids(items) - seen|, 1
  {
    hide NodeFor, NodesFor, RowOrder, Reselect;
    ReselectedOrder(items, item.modelId, targets, checked);
    NodeUnfold(items, item, seen);
    NodeUnfold(Reselect(items, targets, checked), Choose(item, targets, checked), seen);
    if item.modelId !in seen {
      assert forall i :: i in RowOrder(items, item.modelId) ==> i.modelId in Ids(items) by {
        RowOrderKnown(items, item.modelId);
      }
      ReselectedNodesFor(items, RowOrder(items, item.modelId), seen + {item.modelId}, targets, checked);
    }
  }

  lemma RowOrderKnown(items: seq<Item>, id: string)
    ensures forall i :: i in RowOrder(items, id) ==> i in items
  {
  }

  lemma {:induction false} ReselectedNodesFor(
    items: seq<Item>, list: seq<Item>, seen: set<string>, targets: set<string>, checked: bool)
    requires forall i :: i in list ==> i.modelId in Ids(items)
    ensures forall i :: i in Reselect(list, targets, checked) ==> i.modelId in Ids(Reselect(items, targets, checked))
    ensures NodesFor(Reselect(items, targets, checked), Reselect(list, targets, checked), seen) ==
            ReselectNodes(NodesFor(items, list, seen), targets, checked)
    decreases |Ids(items) - seen|, 2, |list|
  {
    hide Ids, NodeFor, Unique, SameSkeleton;
    SkeletonIds(items, Reselect(items, targets, checked));
    if list != [] {
      var first, rest := list[0], list[1..];
      ReselectedNode(items, first, seen, targets, checked);
      ReselectedNodesFor(items, rest, seen, targets, checked);
      var list' := Reselect(list, targets, checked);
      assert list'[0] == Choose(first, targets, checked) && list'[1..] == Reselect(rest, targets, checked);
      NodesCons(items, list, seen);
      NodesCons(Reselect(items, targets, checked), list', seen);
    }
  }

  lemma NodesCons(items: seq<Item>, list: seq<Item>, seen: set<string>)
    requires list != [] && forall i :: i in list ==> i.modelId in Ids(items)
    ensures NodesFor(items, list, seen) == [NodeFor(items, list[0], seen)] + NodesFor(items, list[1..], seen)
  {
  }

  lemma {:induction false} ReselectNodesConcat(a: seq<Node>, b: seq<Node>, targets: set<string>, checked: bool)
    ensures ReselectNodes(a + b, targets, checked) ==
            ReselectNodes(a, targets, checked) + ReselectNodes(b, targets, checked)
  {
    if a == [] {
      assert a + b == b;
    } else {
      assert (a + b)[0] == a[0] && (a + b)[1..] == a[1..] + b;
      ReselectNodesConcat(a[1..], b, targets, checked);
    }
  }

  lemma {:induction false} RootsReselected(items: seq<Item>, targets: set<string>, checked: bool)
    ensures Ids(Reselect(items, targets, checked)) == Ids(items)
    ensures Environments(Reselect(items, targets, checked)) == Reselect(Environments(items), targets, checked)
    ensures OtherRoots(Reselect(items, targets, checked)) == Reselect(OtherRoots(items), targets, checked)
  {
    hide Where, ByKind, Reselect, Ids;
    SkeletonIds(items, Reselect(items, targets, checked));
    var roots := RootsIn(items, Ids(items));
    ReselectedWhere(items, (i: Item) => !HasParent(Ids(items), i), targets, checked);
    ReselectedWhere(roots, (i: Item) => i.model == Environment, targets, checked);
    ReselectedWhere(roots, (i: Item) => i.model != Environment, targets, checked);
    ReselectedByKind(NotEnvironments(roots), targets, checked);
  }

  /** Rebuilding the tree after a click gives the same tree with the rows reselected. */
  lemma {:induction false} TreeRebuiltInPlace(items: seq<Item>, targets: set<string>, checked: bool)
    ensures ItemTree(Reselect(items, targets, checked)) == ReselectNodes(ItemTree(items), targets, checked)
  {
    hide Environments, OtherRoots, ItemTree, NodesFor, Ids, Reselect, ReselectNodes;
    var after := Reselect(items, targets, checked);
    RootsReselected(items, targets, checked);
    ItemTreeSpelled(items);
    ItemTreeSpelled(after);
    assert forall i :: i in items ==> i.modelId in Ids(items) by { IdsKnown(items); }
    ReselectedNodesFor(items, Environments(items), {}, targets, checked);
    ReselectedNodesFor(items, OtherRoots(items), {}, targets, checked);
    var e, o := NodesFor(items, Environments(items), {}), NodesFor(items, OtherRoots(items), {});
    var g := Node("group:environments", Group, e);
    ReselectNodesConcat([g], o, targets, checked);
    OneReselected(g, targets, checked);
    assert |Environments(after)| == |Environments(items)|;
  }

  lemma IdsKnown(items: seq<Item>)
    ensures forall i :: i in items ==> i.modelId in Ids(items)
  {
  }

  lemma OneReselected(n: Node, targets: set<string>, checked: bool)
    ensures ReselectNodes([n], targets, checked) == [ReselectNode(n, targets, checked)]
  {
  }

  // ---------------------------------------------------------------- runs

  datatype Click = Toggle(k: nat, node: Node, checked: bool) | Resolve(modelId: string, resolution: Resolution)

  /** A toggle is a click on a row of one of the trees on show. */
  predicate Possible(items: seq<Item>, dest: Destinations, click: Click) {
    click.Toggle? ==> Displayed(Part(items, dest, click.k), click.node)
  }

  function Apply(items: seq<Item>, click: Click): seq<Item> {
    match click
    case Toggle(_, node, checked) => Reselect(items, Targets(items, node, checked), checked)
    case Resolve(modelId, resolution) => Resolved(items, modelId, resolution)
  }

  /** The states of a run, one per click, each click on the trees of its own state. */
  ghost predicate Run(states: seq<seq<Item>>, clicks: seq<Click>, dest: Destinations) {
    && |states| == |clicks| + 1
    && forall k :: 0 <= k < |clicks| ==>
         Possible(states[k], dest, clicks[k]) && states[k + 1] == Apply(states[k], clicks[k])
  }

  lemma ApplyKeepsSkeleton(items: seq<Item>, click: Click)
    ensures SameSkeleton(items, Apply(items, click))
  {
    if click.Toggle? {
      ReselectLookup(items, Targets(items, click.node, click.checked), click.checked);
    }
  }

  /** Deciding the conflict x for the source while the missing folder a above it is not selected. */
  ghost predicate DecisionStrands(items: seq<Item>, modelId: string, resolution: Resolution, x: string, a: string) {
    && x in ById(items) && a in ById(items) && a in Ancestors(ParentsOf(items), x, {})
    && ById(items)[x].action == Conflict && !Applied(ById(items)[x])
    && MissingFolder(ById(items)[a]) && !ById(items)[a].selected
    && modelId == x && resolution == TakeSource
  }

  /** Exactly when a decision about a conflict strands an item that was not stranded before. */
  lemma DecisionStrandsIff(items: seq<Item>, modelId: string, resolution: Resolution, x: string, a: string)
    ensures !Stranded(items, x, a) && Stranded(Resolved(items, modelId, resolution), x, a) <==>
            DecisionStrands(items, modelId, resolution, x, a)
  {
    hide Ancestors;
    SkeletonParents(items, Resolved(items, modelId, resolution));
    ResolvedLookup(items, modelId, resolution, x);
    ResolvedLookup(items, modelId, resolution, a);
  }

  lemma {:induction false} ResolvedLookup(items: seq<Item>, modelId: string, resolution: Resolution, x: string)
    ensures var after := Resolved(items, modelId, resolution);
            && (x in ById(items) <==> x in ById(after))
            && (x in ById(items) ==>
                  ById(after)[x] ==
                  if x == modelId then ById(items)[x].(resolution := Some(resolution)) else ById(items)[x])
  {
    if items != [] {
      var n := |items| - 1;
      ResolvedLookup(items[..n], modelId, resolution, x);
      assert Resolved(items, modelId, resolution)[..n] == Resolved(items[..n], modelId, resolution);
      ByIdLookup(items);
    }
  }

  lemma FamiliesStay(a: seq<Item>, b: seq<Item>, dest: Destinations)
    requires SameSkeleton(a, b) && FamiliesTogether(a, dest)
    ensures FamiliesTogether(b, dest)
  {
    if dest.Several? {
      forall c, p | c in b && p in b && c.parentId == Some(p.modelId)
        ensures (c.modelId in dest.workspaceOf <==> p.modelId in dest.workspaceOf) &&
                (c.modelId in dest.workspaceOf ==> dest.workspaceOf[c.modelId] == dest.workspaceOf[p.modelId])
      {
        var j :| 0 <= j < |b| && b[j] == c;
        var k :| 0 <= k < |b| && b[k] == p;
        assert a[j] in a && a[k] in a;
      }
    }
  }

  /** The two ways in which one step of the user strands an item. */
  ghost predicate Strands(items: seq<Item>, click: Click, x: string, a: string) {
    match click
    case Toggle(_, node, checked) => UncheckStrands(items, node, checked, x, a)
    case Resolve(modelId, resolution) => DecisionStrands(items, modelId, resolution, x, a)
  }

  lemma {:induction false} StepStrandsIff(items: seq<Item>, dest: Destinations, click: Click, x: string, a: string)
    requires Unique(items) && FamiliesTogether(items, dest) && Possible(items, dest, click)
    ensures !Stranded(items, x, a) && Stranded(Apply(items, click), x, a) <==> Strands(items, click, x, a)
  {
    hide Stranded, UncheckStrands, DecisionStrands;
    match click
    case Toggle(k, node, checked) =>
      PartHasWholeFamilies(items, dest, k);
      DisplayedIsCut(items, Part(items, dest, k), node);
      ClickStrandsIff(items, node, checked, x, a);
    case Resolve(modelId, resolution) =>
      DecisionStrandsIff(items, modelId, resolution, x, a);
  }

  /** A state of a run has the plan's ids and families. */
  lemma {:induction false} RunKeepsPlan(states: seq<seq<Item>>, clicks: seq<Click>, dest: Destinations, k: nat)
    requires Run(states, clicks, dest) && Unique(states[0]) && FamiliesTogether(states[0], dest) && k <= |clicks|
    ensures Unique(states[k]) && FamiliesTogether(states[k], dest)
  {
    hide Unique, FamiliesTogether, SameSkeleton, Possible, Apply;
    if k > 0 {
      RunKeepsPlan(states, clicks, dest, k - 1);
      ApplyKeepsSkeleton(states[k - 1], clicks[k - 1]);
      SkeletonIds(states[k - 1], states[k]);
      FamiliesStay(states[k - 1], states[k], dest);
    }
  }

  /** Over every run from a plan with unique ids whose families stay in one workspace, an item that
      is stranded at some point was so from the start, or was stranded by an earlier step in one of
      the two ways. */
  lemma {:induction false} RunStrandsOnlyBy(
    states: seq<seq<Item>>, clicks: seq<Click>, dest: Destinations, k: nat, x: string, a: string)
    requires Run(states, clicks, dest) && Unique(states[0]) && FamiliesTogether(states[0], dest) && k <= |clicks|
    requires Stranded(states[k], x, a)
    ensures Stranded(states[0], x, a) || exists j :: 0 <= j < k && Strands(states[j], clicks[j], x, a)
  {
    hide Unique, FamiliesTogether, Possible, Apply, Stranded, Strands;
    if k > 0 {
      RunKeepsPlan(states, clicks, dest, k - 1);
      StepStrandsIff(states[k - 1], dest, clicks[k - 1], x, a);
      if Stranded(states[k - 1], x, a) { RunStrandsOnlyBy(states, clicks, dest, k - 1, x, a); }
    }
  }

  /** Over every run of clicks and decisions from a plan with unique ids whose families stay in one
      workspace, an item selected by its checkbox that lacks a missing folder it needs lacked it
      from the start. */
  lemma {:induction false} RunAddsNoOrphan(
    states: seq<seq<Item>>, clicks: seq<Click>, dest: Destinations, x: string, a: string)
    requires Run(states, clicks, dest) && Unique(states[0]) && FamiliesTogether(states[0], dest)
    requires Orphaned(states[|clicks|], x, a)
    ensures Orphaned(states[0], x, a)
    decreases |clicks|
  {
    hide Orphaned, Unique, FamiliesTogether, Displayed, Cut, Apply, SameSkeleton;
    if clicks != [] {
      var items, click := states[0], clicks[0];
      ApplyKeepsSkeleton(items, click);
      SkeletonIds(items, states[1]);
      FamiliesStay(items, states[1], dest);
      RunAddsNoOrphan(states[1..], clicks[1..], dest, x, a);
      OneClick(items, dest, click, x, a);
    }
  }

  lemma {:induction false} OneClick(items: seq<Item>, dest: Destinations, click: Click, x: string, a: string)
    requires Unique(items) && FamiliesTogether(items, dest) && Possible(items, dest, click)
    requires Orphaned(Apply(items, click), x, a)
    ensures Orphaned(items, x, a)
  {
    match click
    case Toggle(k, node, checked) =>
      PartHasWholeFamilies(items, dest, k);
      DisplayedIsCut(items, Part(items, dest, k), node);
      ClickAddsNoOrphan(items, node, checked, x, a);
    case Resolve(modelId, resolution) =>
      ResolvedLookup(items, modelId, resolution, x);
      DecisionStrandsIff(items, modelId, resolution, x, a);
  }

  ghost predicate NoStepStrands(states: seq<seq<Item>>, clicks: seq<Click>)
    requires |states| == |clicks| + 1
  {
    forall k, x, a :: 0 <= k < |clicks| ==> !Strands(states[k], clicks[k], x, a)
  }

  /** No state of a run has a stranded item if and only if the plan started with none and no step
      stranded one. Items with a checkbox need no such condition on the steps: without orphans at
      the start there are none at the end. */
  lemma RunKeepsFolders(states: seq<seq<Item>>, clicks: seq<Click>, dest: Destinations)
    requires Run(states, clicks, dest) && Unique(states[0]) && FamiliesTogether(states[0], dest)
    ensures (forall k :: 0 <= k <= |clicks| ==> NoneStranded(states[k])) <==>
            NoneStranded(states[0]) && NoStepStrands(states, clicks)
    ensures NoOrphans(states[0]) ==> NoOrphans(states[|clicks|])
  {
    hide Unique, FamiliesTogether, Possible, Apply, Stranded, Strands, Orphaned;
    if NoneStranded(states[0]) && NoStepStrands(states, clicks) {
      forall k, x, a | 0 <= k <= |clicks|
        ensures !Stranded(states[k], x, a)
      {
        if Stranded(states[k], x, a) { RunStrandsOnlyBy(states, clicks, dest, k, x, a); }
      }
    }
    if k, x, a :| 0 <= k < |clicks| && Strands(states[k], clicks[k], x, a) {
      RunKeepsPlan(states, clicks, dest, k);
      StepStrandsIff(states[k], dest, clicks[k], x, a);
      assert Stranded(states[k + 1], x, a);
    }
    forall x, a | NoOrphans(states[0])
      ensures !Orphaned(states[|clicks|], x, a)
    {
      if Orphaned(states[|clicks|], x, a) { RunAddsNoOrphan(states, clicks, dest, x, a); }
    }
  }

  /** Right after a click the clicked row is on show again, and shows what was asked for unless it
      has nothing to decide. */
  lemma {:induction false} ClickShowsRequest(items: seq<Item>, dest: Destinations, k: nat, n: Node, checked: bool)
    requires Unique(items) && FamiliesTogether(items, dest) && Displayed(Part(items, dest, k), n)
    ensures var targets := Targets(items, n, checked);
            var after := Reselect(items, targets, checked);
            var again := ReselectNode(n, targets, checked);
            && Displayed(Part(after, dest, k), again)
            && NodeStatus(again) == if NodeStatus(n) == Hidden then Hidden else Checked(checked)
  {
    hide Targets, ItemTree, Cut, NodeStatus, InWorkspace, Reselect, FamiliesTogether, Unique, SubnodesOfAll;
    var targets := Targets(items, n, checked);
    var part := Part(items, dest, k);
    PartHasWholeFamilies(items, dest, k);
    DisplayedIsCut(items, part, n);
    ClickedStatus(items, n, checked);
    PartReselected(items, dest, k, targets, checked);
    TreeRebuiltInPlace(part, targets, checked);
    if n in SubnodesOfAll(ItemTree(part)) { SubnodeReselected(ItemTree(part), n, targets, checked); }
  }

  lemma PartReselected(items: seq<Item>, dest: Destinations, k: nat, targets: set<string>, checked: bool)
    ensures Part(Reselect(items, targets, checked), dest, k) == Reselect(Part(items, dest, k), targets, checked)
  {
    match dest
    case One(_) =>
    case Several(ids, workspaceOf) =>
      if k < |ids| {
        var keep := (i: Item) => i.modelId in workspaceOf && workspaceOf[i.modelId] == ids[k];
        ReselectedWhere(items, keep, targets, checked);
      }
  }

  lemma {:induction false} SubnodeReselected(ns: seq<Node>, n: Node, targets: set<string>, checked: bool)
    requires n in SubnodesOfAll(ns)
    ensures ReselectNode(n, targets, checked) in SubnodesOfAll(ReselectNodes(ns, targets, checked))
    decreases ns
  {
    assert ns != [];
    if n == ns[0] {
    } else if n in SubnodesOfAll(ns[0].children) {
      SubnodeReselected(ns[0].children, n, targets, checked);
    } else {
      SubnodeReselected(ns[1..], n, targets, checked);
    }
  }

  // ---------------------------------------------------------------- plans on which a step strands an item

  /** An ignored folder, and in it a resource on which both sides changed. */
  function IgnoredFolder(folderSelected: bool, resolution: Resolution): seq<Item> {
    [Item("f", None, Folder, Ignored, folderSelected, None),
     Item("r", Some("f"), Request, Conflict, false, Some(resolution))]
  }

  lemma IgnoredFolderPlan(folderSelected: bool, resolution: Resolution)
    ensures var items := IgnoredFolder(folderSelected, resolution);
            && Unique(items) && ById(items) == map["f" := items[0], "r" := items[1]]
            && Ancestors(ParentsOf(items), "r", {}) == ["f"] && Ancestors(ParentsOf(items), "f", {}) == []
            && RootedAt(ParentsOf(items), "f", 0)
  {
    var items := IgnoredFolder(folderSelected, resolution);
    var ps := ParentsOf(items);
    assert items[..1] == [items[0]] && items[..1][..0] == [];
    assert ById(items[..1]) == ById([])["f" := items[0]] == map["f" := items[0]];
    assert ById(items) == ById(items[..1])["r" := items[1]];
    assert ps.Keys == {"f", "r"} && ps["f"] == None && ps["r"] == Some("f");
    assert Ancestors(ps, "f", {"f"}) == [];
  }

  /** Taking the source's side of that conflict strands the resource. */
  lemma TakingSourceStrands()
    ensures var items := IgnoredFolder(false, KeepMine);
            NoneStranded(items) && Stranded(Resolved(items, "r", TakeSource), "r", "f")
  {
    var items := IgnoredFolder(false, KeepMine);
    IgnoredFolderPlan(false, KeepMine);
    DecisionStrandsIff(items, "r", TakeSource, "r", "f");
  }

  /** So does unchecking everything after the folder was checked and the conflict taken. */
  lemma {:induction false} UncheckingStrands()
    ensures var items := IgnoredFolder(true, TakeSource);
            var top := Node("w", Destination, ItemTree(items));
            && NoneStranded(items) && Displayed(Part(items, One("w"), 0), top)
            && Stranded(Reselect(items, Targets(items, top, false), false), "r", "f")
  {
    hide ItemTree;
    var items := IgnoredFolder(true, TakeSource);
    var top := Node("w", Destination, ItemTree(items));
    IgnoredFolderPlan(true, TakeSource);
    DestinationIsCut(items, top);
    PlacedOnceIffRooted(items);
    assert items[0] in ItemsOn(RowsOfAll(top.children));
    RowIdsAreItems(RowsOfAll(top.children));
    DestinationAddsNoItem(RowsOfAll(top.children));
    ClickStrandsIff(items, top, false, "r", "f");
  }
}
