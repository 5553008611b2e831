/** Where buildItemTree puts each plan item. */
module ImportPlacement {
  import opened Forest
  import opened Strings
  import opened Wrappers
  import opened ImportTree

  function IdsOf(items: seq<Item>): (r: seq<string>)
    ensures |r| == |items| && forall k :: 0 <= k < |items| ==> r[k] == items[k].modelId
  {
    if items == [] then [] else [items[0].modelId] + IdsOf(items[1..])
  }

  function Shape(n: Node): Tree {
    Tree(n.key, Shapes(n.children))
  }

  function Shapes(ns: seq<Node>): seq<Tree> {
    if ns == [] then [] else [Shape(ns[0])] + Shapes(ns[1..])
  }

  function CollectRows(n: Node): seq<Row> {
    [n.data] + RowsOfAll(n.children)
  }

  function RowsOfAll(ns: seq<Node>): seq<Row> {
    if ns == [] then [] else CollectRows(ns[0]) + RowsOfAll(ns[1..])
  }

  /** A node and everything beneath it, each parent before its children. */
  function Subnodes(n: Node): seq<Node> {
    [n] + SubnodesOfAll(n.children)
  }

  function SubnodesOfAll(ns: seq<Node>): seq<Node> {
    if ns == [] then [] else Subnodes(ns[0]) + SubnodesOfAll(ns[1..])
  }

  function KidsIn(items: seq<Item>): map<string, seq<string>> {
    var childrenOf := ChildrenMap(items, Ids(items));
    map id | id in childrenOf :: IdsOf(ByKind(childrenOf[id]))
  }

  /** The node for item, as buildItemTree makes it with seen above it. */
  function NodeFor(items: seq<Item>, item: Item, seen: set<string>): Node
    requires item.modelId in Ids(items)
  {
    ToNode(ChildrenMap(items, Ids(items)), Ids(items), item, seen)
  }

  function NodesFor(items: seq<Item>, list: seq<Item>, seen: set<string>): seq<Node>
    requires forall i :: i in list ==> i.modelId in Ids(items)
  {
    ToNodes(ChildrenMap(items, Ids(items)), Ids(items), list, seen)
  }

  lemma ParentsKeys(items: seq<Item>)
    ensures ParentsOf(items).Keys == Ids(items)
    ensures Unique(items) ==> forall i :: i in items ==> ParentsOf(items)[i.modelId] == i.parentId
    ensures Unique(items) ==> forall i :: i in items ==>
              Up(ParentsOf(items), i.modelId) == if HasParent(Ids(items), i) then i.parentId else None
    ensures forall i, c :: i in KidsIn(items) && c in KidsIn(items)[i] ==> c in ParentsOf(items)
  {
    ByIdLookup(items);
  }

  lemma SameItem(items: seq<Item>, i: Item, j: Item)
    requires Unique(items) && i in items && j in items && i.modelId == j.modelId
    ensures i == j
  {
    ByIdLookup(items);
  }

  // ---------------------------------------------------------------- the children lists are linked

  lemma {:induction false} WhereUnique(items: seq<Item>, keep: Item -> bool)
    requires Unique(items)
    ensures Unique(Where(items, keep))
  {
    if items != [] {
      var n := |items| - 1;
      WhereUnique(items[..n], keep);
      assert forall i :: i in items[..n] ==> i.modelId != items[n].modelId;
    }
  }

  lemma KindUnique(items: seq<Item>, kind: Kind)
    requires Unique(items)
    ensures Unique(OfKind(items, kind))
  {
    WhereUnique(items, (i: Item) => i.model == kind);
  }

  lemma UniqueConcat(items: seq<Item>, a: seq<Item>, b: seq<Item>)
    requires Unique(items) && Unique(a) && Unique(b)
    requires forall i :: i in a || i in b ==> i in items
    requires forall i :: i in a ==> i !in b
    ensures Unique(a + b)
  {
    forall j, k | 0 <= j < k < |a + b|
      ensures (a + b)[j].modelId != (a + b)[k].modelId
    {
      if j < |a| <= k && a[j].modelId == b[k - |a|].modelId { SameItem(items, a[j], b[k - |a|]); }
    }
  }

  lemma ByKindUnique(items: seq<Item>)
    requires Unique(items)
    ensures Unique(ByKind(items))
  {
    KindUnique(items, Environment);
    KindUnique(items, Folder);
    KindUnique(items, Request);
    UniqueConcat(items, OfKind(items, Environment), OfKind(items, Folder));
    UniqueConcat(items, OfKind(items, Environment) + OfKind(items, Folder), OfKind(items, Request));
  }

  /** The children of id in the order of their rows. */
  function RowOrder(items: seq<Item>, id: string): seq<Item> {
    ByKind(if id in Ids(items) then ChildrenIn(items, id) else [])
  }

  lemma KidsLookup(items: seq<Item>, id: string)
    ensures ByKind(Get(ChildrenMap(items, Ids(items)), id)) == RowOrder(items, id)
    ensures Kids(KidsIn(items), id) == IdsOf(RowOrder(items, id))
  {
    hide ChildrenIn, ByKind, IdsOf;
    NothingByKind();
  }

  lemma NothingByKind()
    ensures ByKind([]) == [] && IdsOf([]) == []
  {
  }

  lemma IdsMember(items: seq<Item>, id: string)
    ensures id in IdsOf(items) <==> exists i :: i in items && i.modelId == id
    ensures Unique(items) ==> Distinct(IdsOf(items))
  {
    if i :| i in items && i.modelId == id {
      var k :| 0 <= k < |items| && items[k] == i;
      assert IdsOf(items)[k] == id;
    }
    if id in IdsOf(items) {
      var k :| 0 <= k < |items| && IdsOf(items)[k] == id;
      assert items[k] in items;
    }
  }

  lemma {:induction false} UpIsRowParent(items: seq<Item>, id: string, c: string)
    requires Unique(items)
    ensures Up(ParentsOf(items), c) == Some(id) <==> exists i :: i in RowOrder(items, id) && i.modelId == c
  {
    hide ByKind, ChildrenIn, ParentsOf, Up, Unique;
    ParentsKeys(items);
    if Up(ParentsOf(items), c) == Some(id) {
      assert c in ParentsOf(items) by { UpKnown(ParentsOf(items), c); }
      var i :| i in items && i.modelId == c;
      assert i in RowOrder(items, id);
    }
    if i :| i in RowOrder(items, id) && i.modelId == c {
      assert i in items && HasParent(Ids(items), i);
    }
  }

  lemma UpKnown(ps: Parents, c: string)
    ensures Up(ps, c).Some? ==> c in ps
  {
  }

  lemma {:induction false} KidsAreChildren(items: seq<Item>, id: string)
    requires Unique(items)
    ensures Distinct(Kids(KidsIn(items), id))
    ensures forall c :: c in Kids(KidsIn(items), id) <==> Up(ParentsOf(items), c) == Some(id)
  {
    hide ByKind, Where, ParentsOf, Up, KidsIn, IdsOf;
    KidsLookup(items, id);
    WhereUnique(items, (i: Item) => i.parentId == Some(id));
    ByKindUnique(if id in Ids(items) then ChildrenIn(items, id) else []);
    IdsMember(RowOrder(items, id), id);
    forall c
      ensures c in Kids(KidsIn(items), id) <==> Up(ParentsOf(items), c) == Some(id)
    {
      IdsMember(RowOrder(items, id), c);
      UpIsRowParent(items, id, c);
    }
  }

  lemma LinkedItems(items: seq<Item>)
    requires Unique(items)
    ensures Linked(ParentsOf(items), KidsIn(items))
  {
    forall id
      ensures Distinct(Kids(KidsIn(items), id)) &&
              forall c :: c in Kids(KidsIn(items), id) <==> Up(ParentsOf(items), c) == Some(id)
    {
      KidsAreChildren(items, id);
    }
  }

  // ---------------------------------------------------------------- rows and ids of a node

  lemma NodeUnfold(items: seq<Item>, item: Item, seen: set<string>)
    requires item.modelId in Ids(items)
    ensures NodeFor(items, item, seen) ==
            Node(item.modelId, ItemRow(item),
                 if item.modelId in seen then []
                 else NodesFor(items, RowOrder(items, item.modelId), seen + {item.modelId}))
    ensures item.modelId !in seen ==> |Ids(items) - (seen + {item.modelId})| < |Ids(items) - seen|
  {
    hide ByKind, ChildrenIn, IdsOf, KidsIn, ChildrenMap, RowOrder;
    KidsLookup(items, item.modelId);
    assert Ids(items) - (seen + {item.modelId}) == (Ids(items) - seen) - {item.modelId};
  }

  lemma {:induction false} ShapeOfNode(items: seq<Item>, item: Item, seen: set<string>)
    requires item.modelId in Ids(items)
    ensures ParentsOf(items).Keys == Ids(items)
    ensures forall i, c :: i in KidsIn(items) && c in KidsIn(items)[i] ==> c in ParentsOf(items)
    ensures Shape(NodeFor(items, item, seen)) == Grow(ParentsOf(items), KidsIn(items), item.modelId, seen)
    decreases |Ids(items) - seen|, 1
  {
    hide NodeFor, RowOrder, Ids, KidsIn, ParentsOf;
    ParentsKeys(items);
    NodeUnfold(items, item, seen);
    KidsLookup(items, item.modelId);
    if item.modelId !in seen {
      ShapeOfNodes(items, RowOrder(items, item.modelId), seen + {item.modelId});
    }
  }

  lemma {:induction false} ShapeOfNodes(items: seq<Item>, list: seq<Item>, seen: set<string>)
    requires forall i :: i in list ==> i.modelId in Ids(items)
    ensures ParentsOf(items).Keys == Ids(items)
    ensures forall i, c :: i in KidsIn(items) && c in KidsIn(items)[i] ==> c in ParentsOf(items)
    ensures forall c :: c in IdsOf(list) ==> c in ParentsOf(items)
    ensures Shapes(NodesFor(items, list, seen)) == GrowAll(ParentsOf(items), KidsIn(items), IdsOf(list), seen)
    decreases |Ids(items) - seen|, 2, |list|
  {
    ParentsKeys(items);
    forall c | c in IdsOf(list) ensures c in ParentsOf(items) { IdsMember(list, c); }
    if list != [] {
      ShapeOfNode(items, list[0], seen);
      ShapeOfNodes(items, list[1..], seen);
    }
  }

  /** Every row is a plan item of items, keyed by its id. */
  predicate Represents(items: seq<Item>, n: Node) {
    && n.data.ItemRow? && n.data.item in items && n.key == n.data.item.modelId
    && forall c <- n.children :: Represents(items, c)
  }

  lemma {:induction false} NodeRepresents(items: seq<Item>, item: Item, seen: set<string>)
    requires item in items
    ensures Represents(items, NodeFor(items, item, seen))
    decreases |Ids(items) - seen|, 1
  {
    NodeUnfold(items, item, seen);
    if item.modelId !in seen {
      NodesRepresent(items, RowOrder(items, item.modelId), seen + {item.modelId});
    }
  }

  lemma {:induction false} NodesRepresent(items: seq<Item>, list: seq<Item>, seen: set<string>)
    requires forall i :: i in list ==> i in items
    ensures forall n :: n in NodesFor(items, list, seen) ==> Represents(items, n)
    decreases |Ids(items) - seen|, 2, |list|
  {
    if list != [] {
      NodeRepresents(items, list[0], seen);
      NodesRepresent(items, list[1..], seen);
    }
  }

  /** The rows of a node show exactly the plan items with its keys, in the same order. */
  lemma {:induction false} RowsAreKeys(items: seq<Item>, n: Node)
    requires Represents(items, n)
    ensures |CollectRows(n)| == |Keys(Shape(n))|
    ensures forall k :: 0 <= k < |CollectRows(n)| ==>
              var r := CollectRows(n)[k];
              r.ItemRow? && r.item in items && r.item.modelId == Keys(Shape(n))[k]
    decreases n
  {
    RowsAreKeysOfAll(items, n.children);
  }

  lemma {:induction false} RowsAreKeysOfAll(items: seq<Item>, ns: seq<Node>)
    requires forall n :: n in ns ==> Represents(items, n)
    ensures |RowsOfAll(ns)| == |KeysOfAll(Shapes(ns))|
    ensures forall k :: 0 <= k < |RowsOfAll(ns)| ==>
              var r := RowsOfAll(ns)[k];
              r.ItemRow? && r.item in items && r.item.modelId == KeysOfAll(Shapes(ns))[k]
    decreases ns
  {
    if ns != [] {
      RowsAreKeys(items, ns[0]);
      RowsAreKeysOfAll(items, ns[1..]);
    }
  }

  /** The ids of the plan items on the rows. */
  function RowIds(rows: seq<Row>): set<string> {
    set r <- rows | r.ItemRow? :: r.item.modelId
  }

  lemma RowIdsAreKeys(items: seq<Item>, n: Node)
    requires Represents(items, n)
    ensures forall x :: x in RowIds(CollectRows(n)) <==> x in Keys(Shape(n))
    ensures forall r :: r in CollectRows(n) ==> r.ItemRow? && r.item in items
  {
    RowsAreKeys(items, n);
    forall x | x in Keys(Shape(n))
      ensures x in RowIds(CollectRows(n))
    {
      var k :| 0 <= k < |Keys(Shape(n))| && Keys(Shape(n))[k] == x;
      assert CollectRows(n)[k] in CollectRows(n);
    }
  }

  // ---------------------------------------------------------------- every node of the tree

  /** A node anywhere beneath a rooted item's node was made by toNode, for a rooted item. */
  lemma {:induction false} SubnodeMade(items: seq<Item>, item: Item, seen: set<string>, d: nat, n: Node)
    returns (i: Item, s: set<string>, e: nat)
    requires Unique(items) && item in items && item.modelId in Ids(items) && n in Subnodes(NodeFor(items, item, seen))
    requires RootedAt(ParentsOf(items), item.modelId, d) && Shallower(ParentsOf(items), seen, d)
    ensures i in items && i.modelId in Ids(items) && n == NodeFor(items, i, s)
    ensures RootedAt(ParentsOf(items), i.modelId, e) && Shallower(ParentsOf(items), s, e)
    decreases |Ids(items) - seen|, 1
  {
    hide NodeFor, NodesFor, RootedAt, Unique, Shallower, RowOrder, ParentsOf, Subnodes, SubnodesOfAll, Ids;
    if n == NodeFor(items, item, seen) {
      i, s, e := item, seen, d;
    } else {
      OneDeeper(ParentsOf(items), item.modelId, seen, d);
      NodeUnfold(items, item, seen);
      SubnodesUnfold(NodeFor(items, item, seen), n);
      ChildrenRootedDeeper(items, item.modelId, d);
      i, s, e := SubnodeOfAllMade(items, RowOrder(items, item.modelId), seen + {item.modelId}, d + 1, n);
    }
  }

  lemma SubnodesUnfold(m: Node, n: Node)
    requires n in Subnodes(m)
    ensures n == m || n in SubnodesOfAll(m.children)
  {
  }

  lemma {:induction false} ChildrenRootedDeeper(items: seq<Item>, id: string, d: nat)
    requires Unique(items) && RootedAt(ParentsOf(items), id, d)
    ensures forall c :: c in RowOrder(items, id) ==>
              c in items && RootedAt(ParentsOf(items), c.modelId, d + 1) && c.parentId == Some(id)
  {
    forall c | c in RowOrder(items, id)
      ensures c in items && RootedAt(ParentsOf(items), c.modelId, d + 1) && c.parentId == Some(id)
    {
      UpIsRowParent(items, id, c.modelId);
      ParentsKeys(items);
    }
  }

  lemma {:induction false} SubnodeOfAllMade(items: seq<Item>, list: seq<Item>, seen: set<string>, d: nat, n: Node)
    returns (i: Item, s: set<string>, e: nat)
    requires Unique(items) && (forall c :: c in list ==> c in items)
    requires n in SubnodesOfAll(NodesFor(items, list, seen))
    requires forall c :: c in list ==> RootedAt(ParentsOf(items), c.modelId, d)
    requires Shallower(ParentsOf(items), seen, d)
    ensures i in items && i.modelId in Ids(items) && n == NodeFor(items, i, s)
    ensures RootedAt(ParentsOf(items), i.modelId, e) && Shallower(ParentsOf(items), s, e)
    decreases |Ids(items) - seen|, 2, |list|
  {
    assert list != [];
    if n in Subnodes(NodeFor(items, list[0], seen)) {
      i, s, e := SubnodeMade(items, list[0], seen, d, n);
    } else {
      i, s, e := SubnodeOfAllMade(items, list[1..], seen, d, n);
    }
  }

  /** The subtree of a made node is what lies beneath its item. */
  lemma {:induction false} MadeNodeHolds(items: seq<Item>, item: Item, seen: set<string>, d: nat)
    requires Unique(items) && item in items
    requires RootedAt(ParentsOf(items), item.modelId, d) && Shallower(ParentsOf(items), seen, d)
    ensures item.modelId !in seen
    ensures Represents(items, NodeFor(items, item, seen))
    ensures forall x :: x in RowIds(CollectRows(NodeFor(items, item, seen))) <==>
            Below(ParentsOf(items), x, item.modelId)
    ensures Distinct(Keys(Shape(NodeFor(items, item, seen))))
  {
    ParentsKeys(items);
    LinkedItems(items);
    ShapeOfNode(items, item, seen);
    NodeRepresents(items, item, seen);
    RowIdsAreKeys(items, NodeFor(items, item, seen));
    GrowHoldsSubtree(ParentsOf(items), KidsIn(items), item.modelId, seen, d);
  }

  // ---------------------------------------------------------------- the whole tree

  function ItemsOn(rows: seq<Row>): seq<Item> {
    if rows == [] then [] else (if rows[0].ItemRow? then [rows[0].item] else []) + ItemsOn(rows[1..])
  }

  lemma {:induction false} ItemsOnConcat(a: seq<Row>, b: seq<Row>)
    ensures ItemsOn(a + b) == ItemsOn(a) + ItemsOn(b)
  {
    if a == [] {
      assert a + b == b;
    } else {
      assert (a + b)[0] == a[0] && (a + b)[1..] == a[1..] + b;
      ItemsOnConcat(a[1..], b);
    }
  }

  lemma {:induction false} RowsOfConcat(a: seq<Node>, b: seq<Node>)
    ensures RowsOfAll(a + b) == RowsOfAll(a) + RowsOfAll(b)
    ensures SubnodesOfAll(a + b) == SubnodesOfAll(a) + SubnodesOfAll(b)
  {
    hide CollectRows, Subnodes;
    if a == [] {
      assert a + b == b;
    } else {
      assert (a + b)[0] == a[0] && (a + b)[1..] == a[1..] + b;
      RowsOfConcat(a[1..], b);
      Associates(CollectRows(a[0]), RowsOfAll(a[1..]), RowsOfAll(b));
      Associates(Subnodes(a[0]), SubnodesOfAll(a[1..]), SubnodesOfAll(b));
    }
  }

  lemma {:induction false} NodesConcat(items: seq<Item>, a: seq<Item>, b: seq<Item>, seen: set<string>)
    requires forall i :: i in a || i in b ==> i.modelId in Ids(items)
    ensures NodesFor(items, a + b, seen) == NodesFor(items, a, seen) + NodesFor(items, b, seen)
    decreases |a|
  {
    if a == [] {
      assert a + b == b;
    } else {
      assert (a + b)[0] == a[0] && (a + b)[1..] == a[1..] + b;
      NodesConcat(items, a[1..], b, seen);
    }
  }

  /** The roots in the order of their rows: environments first. */
  function RootOrder(items: seq<Item>): (r: seq<Item>)
    ensures forall i :: i in r <==> i in items && !HasParent(Ids(items), i)
  {
    Environments(items) + OtherRoots(items)
  }

  lemma RootOrderIds(items: seq<Item>)
    requires Unique(items)
    ensures Unique(RootOrder(items)) && Distinct(IdsOf(RootOrder(items)))
    ensures forall c :: c in IdsOf(RootOrder(items)) <==> c in ParentsOf(items) && Up(ParentsOf(items), c).None?
  {
    var roots := RootsIn(items, Ids(items));
    WhereUnique(items, (i: Item) => !HasParent(Ids(items), i));
    KindUnique(roots, Environment);
    WhereUnique(roots, (i: Item) => i.model != Environment);
    ByKindUnique(NotEnvironments(roots));
    UniqueConcat(items, OfKind(roots, Environment), ByKind(NotEnvironments(roots)));
    forall c
      ensures c in IdsOf(RootOrder(items)) <==> c in ParentsOf(items) && Up(ParentsOf(items), c).None?
    {
      IdsMember(RootOrder(items), c);
      ParentsKeys(items);
    }
  }

  function Environments(items: seq<Item>): (r: seq<Item>)
    ensures forall i :: i in r <==> i in items && !HasParent(Ids(items), i) && i.model == Environment
  {
    OfKind(RootsIn(items, Ids(items)), Environment)
  }

  /** The roots that are not environments, in the order of their rows. */
  function OtherRoots(items: seq<Item>): (r: seq<Item>)
    ensures forall i :: i in r <==> i in items && !HasParent(Ids(items), i) && i.model != Environment
  {
    ByKind(NotEnvironments(RootsIn(items, Ids(items))))
  }

  lemma ItemTreeSpelled(items: seq<Item>)
    ensures var e, o := NodesFor(items, Environments(items), {}), NodesFor(items, OtherRoots(items), {});
            ItemTree(items) == if Environments(items) == [] then o else [Node("group:environments", Group, e)] + o
  {
    hide Where, ByKind;
  }

  lemma HeadingAlone(g: Node)
    requires g.data == Group
    ensures RowsOfAll([g]) == [Group] + RowsOfAll(g.children) && SubnodesOfAll([g]) == [g] + SubnodesOfAll(g.children)
    ensures ItemsOn([Group]) == []
  {
    assert [g][1..] == [] && [Group][1..] == [];
  }

  lemma UnderHeading(key: string, e: seq<Node>, o: seq<Node>)
    ensures ItemsOn(RowsOfAll([Node(key, Group, e)] + o)) == ItemsOn(RowsOfAll(e + o))
    ensures SubnodesOfAll([Node(key, Group, e)] + o) == [Node(key, Group, e)] + SubnodesOfAll(e + o)
  {
    hide RowsOfAll, SubnodesOfAll, ItemsOn;
    var g := Node(key, Group, e);
    RowsOfConcat(e, o);
    RowsOfConcat([g], o);
    HeadingAlone(g);
    Associates([g], SubnodesOfAll(e), SubnodesOfAll(o));
    ItemsOnConcat([Group] + RowsOfAll(e), RowsOfAll(o));
    ItemsOnConcat(RowsOfAll(e), RowsOfAll(o));
    ItemsOnConcat([Group], RowsOfAll(e));
  }

  lemma NoNodes(items: seq<Item>)
    ensures NodesFor(items, [], {}) == []
  {
  }

  /** The heading over the environments adds a row but no plan item. */
  lemma {:induction false} TreeIsRootNodes(items: seq<Item>)
    ensures var nodes := NodesFor(items, RootOrder(items), {});
            && ItemsOn(RowsOfAll(ItemTree(items))) == ItemsOn(RowsOfAll(nodes))
            && (forall n :: n in SubnodesOfAll(ItemTree(items)) && n.data.ItemRow? ==> n in SubnodesOfAll(nodes))
            && (forall n :: n in SubnodesOfAll(ItemTree(items)) && !n.data.ItemRow? ==>
                  n.data == Group && n.children == NodesFor(items, Environments(items), {}))
  {
    hide ItemTree, Environments, OtherRoots, SubnodesOfAll, RowsOfAll, ItemsOn, NodesFor;
    var e, o := NodesFor(items, Environments(items), {}), NodesFor(items, OtherRoots(items), {});
    ItemTreeSpelled(items);
    NodesConcat(items, Environments(items), OtherRoots(items), {});
    assert NodesFor(items, [], {}) == [] by { NoNodes(items); }
    OnlyItemRows(items, RootOrder(items), {});
    UnderHeading("group:environments", e, o);
    if Environments(items) == [] { assert [] + o == o; }
  }

  lemma {:induction false} OnlyItemRows(items: seq<Item>, list: seq<Item>, seen: set<string>)
    requires forall i :: i in list ==> i.modelId in Ids(items)
    ensures forall n :: n in SubnodesOfAll(NodesFor(items, list, seen)) ==> n.data.ItemRow?
    decreases |Ids(items) - seen|, |list|
  {
    if list != [] {
      var item := list[0];
      NodeUnfold(items, item, seen);
      if item.modelId !in seen { OnlyItemRows(items, RowOrder(items, item.modelId), seen + {item.modelId}); }
      OnlyItemRows(items, list[1..], seen);
      var first := NodeFor(items, item, seen);
      assert SubnodesOfAll(NodesFor(items, list, seen)) ==
             Subnodes(first) + SubnodesOfAll(NodesFor(items, list[1..], seen));
    }
  }

  lemma ItemsByKeys(items: seq<Item>, on: seq<Item>, keys: seq<string>)
    requires Unique(items) && |on| == |keys| && Distinct(keys)
    requires forall k :: 0 <= k < |on| ==> on[k] in items && on[k].modelId == keys[k]
    ensures Unique(on)
    ensures forall i :: i in on <==> i in items && i.modelId in keys
  {
    forall i
      ensures i in on <==> i in items && i.modelId in keys
    {
      if i in on {
        var k :| 0 <= k < |on| && on[k] == i;
        assert keys[k] == i.modelId;
      }
      if i in items && i.modelId in keys {
        var k :| 0 <= k < |on| && keys[k] == i.modelId;
        SameItem(items, on[k], i);
      }
    }
  }

  /** Whatever the parent pointers are, an item is on exactly one row if walking up from it ends,
      and on none if the walk goes round a cycle. */
  lemma {:induction false} PlacedOnceIffRooted(items: seq<Item>)
    requires Unique(items)
    ensures Unique(ItemsOn(RowsOfAll(ItemTree(items))))
    ensures forall i :: i in ItemsOn(RowsOfAll(ItemTree(items))) <==> i in items && Rooted(ParentsOf(items), i.modelId)
  {
    hide RootOrder, ItemTree, ParentsOf, Rooted, KidsIn, Unique, Linked, NodesFor, Represents, Distinct, Up;
    var order := RootOrder(items);
    var nodes := NodesFor(items, order, {});
    TreeIsRootNodes(items);
    RootOrderIds(items);
    LinkedItems(items);
    ParentsKeys(items);
    ShapeOfNodes(items, order, {});
    NodesRepresent(items, order, {});
    RowsAreKeysOfAll(items, nodes);
    ForestHoldsRooted(ParentsOf(items), KidsIn(items), IdsOf(order));
    ItemsOnItemRows(RowsOfAll(nodes));
    ItemsByKeys(items, ItemsOn(RowsOfAll(nodes)), KeysOfAll(Shapes(nodes)));
  }

  lemma {:induction false} ItemsOnItemRows(rows: seq<Row>)
    requires forall r :: r in rows ==> r.ItemRow?
    ensures |ItemsOn(rows)| == |rows|
    ensures forall k :: 0 <= k < |rows| ==> ItemsOn(rows)[k] == rows[k].item
  {
    if rows != [] { ItemsOnItemRows(rows[1..]); }
  }

  /** A node of the tree that shows a plan item. */
  predicate InTree(items: seq<Item>, n: Node) {
    n in SubnodesOfAll(ItemTree(items)) && n.data.ItemRow?
  }

  /** Every item node of the tree was made for a rooted item, and the cut-off was not taken:
      its children are all of the item's children. */
  lemma {:induction false} ItemNodeOfTree(items: seq<Item>, n: Node) returns (s: set<string>, d: nat)
    requires Unique(items) && InTree(items, n)
    ensures n.data.item in items && n.key == n.data.item.modelId
    ensures n == NodeFor(items, n.data.item, s) && n.key !in s
    ensures RootedAt(ParentsOf(items), n.key, d) && Shallower(ParentsOf(items), s, d)
    ensures n.children == NodesFor(items, RowOrder(items, n.key), s + {n.key})
  {
    hide RootOrder, ItemTree, ParentsOf, NodeFor, NodesFor, RowOrder, RootedAt, Shallower, SubnodesOfAll, IdsOf, Up;
    TreeIsRootNodes(items);
    RootOrderIds(items);
    forall c | c in RootOrder(items)
      ensures RootedAt(ParentsOf(items), c.modelId, 0)
    {
      IdsMember(RootOrder(items), c.modelId);
      NoParentIsRooted(ParentsOf(items), c.modelId);
    }
    NothingShallow(ParentsOf(items));
    var i;
    i, s, d := SubnodeOfAllMade(items, RootOrder(items), {}, 0, n);
    NodeUnfold(items, i, s);
    OneDeeper(ParentsOf(items), i.modelId, s, d);
  }

  lemma NoParentIsRooted(ps: Parents, id: string)
    requires id in ps && Up(ps, id).None?
    ensures RootedAt(ps, id, 0)
  {
  }

  /** Each item's node lists exactly the items whose parent it is: environments, then folders,
      then requests, each in plan order. */
  lemma {:induction false} ChildrenUnderParent(items: seq<Item>, n: Node)
    requires Unique(items) && InTree(items, n)
    ensures |n.children| == |RowOrder(items, n.key)|
    ensures forall k :: 0 <= k < |n.children| ==> n.children[k].data == ItemRow(RowOrder(items, n.key)[k])
    ensures forall i :: i in RowOrder(items, n.key) <==> i in items && i.parentId == Some(n.key)
  {
    var s, d := ItemNodeOfTree(items, n);
    NodesShow(items, RowOrder(items, n.key), s + {n.key});
  }

  lemma {:induction false} NodesShow(items: seq<Item>, list: seq<Item>, seen: set<string>)
    requires forall i :: i in list ==> i.modelId in Ids(items)
    ensures |NodesFor(items, list, seen)| == |list|
    ensures forall k :: 0 <= k < |list| ==> NodesFor(items, list, seen)[k].data == ItemRow(list[k])
    decreases |list|
  {
    if list != [] {
      NodesShow(items, list[1..], seen);
      NodeUnfold(items, list[0], seen);
      assert NodesFor(items, list, seen) == [NodeFor(items, list[0], seen)] + NodesFor(items, list[1..], seen);
    }
  }

  /** A way down the tree from a root. */
  predicate Trail(items: seq<Item>, trail: seq<Node>) {
    && trail != []
    && (forall k :: 0 <= k < |trail| ==> InTree(items, trail[k]))
    && (forall k :: 0 <= k < |trail| - 1 ==> trail[k + 1] in trail[k].children)
    && Up(ParentsOf(items), trail[0].key).None?
  }

  /** The ids passed on the way down are the ancestors of the last one, reversed. */
  lemma {:induction false} TrailIsAncestors(items: seq<Item>, trail: seq<Node>)
    requires Unique(items) && Trail(items, trail)
    ensures var last := |trail| - 1; var up := Ancestors(ParentsOf(items), trail[last].key, {});
            |up| == last && forall k :: 0 <= k < last ==> up[k] == trail[last - 1 - k].key
    decreases |trail|
  {
    hide InTree, ParentsOf, RootedAt, Ancestors, Up, Unique, RowOrder, NodeFor, NodesFor, Shallower;
    var last := |trail| - 1;
    TreeNodeAncestors(items, trail[last]);
    if last > 0 {
      var above := trail[..last];
      assert forall k :: 0 <= k < |above| - 1 ==> above[k + 1] in above[k].children;
      ChildHasParent(items, trail[last - 1], trail[last]);
      TrailIsAncestors(items, above);
    }
  }

  lemma {:induction false} TreeNodeAncestors(items: seq<Item>, n: Node)
    requires Unique(items) && InTree(items, n)
    ensures Rooted(ParentsOf(items), n.key)
    ensures var ps := ParentsOf(items);
            Ancestors(ps, n.key, {}) ==
            if Up(ps, n.key).None? then [] else [Up(ps, n.key).value] + Ancestors(ps, Up(ps, n.key).value, {})
  {
    var s, d := ItemNodeOfTree(items, n);
    AncestorsUnfold(ParentsOf(items), n.key);
  }

  lemma {:induction false} ChildHasParent(items: seq<Item>, p: Node, c: Node)
    requires Unique(items) && InTree(items, p) && InTree(items, c) && c in p.children
    ensures Up(ParentsOf(items), c.key) == Some(p.key)
  {
    hide InTree, ParentsOf, RootedAt, Up, RowOrder;
    ChildrenUnderParent(items, p);
    var s, d := ItemNodeOfTree(items, c);
    var k :| 0 <= k < |p.children| && p.children[k] == c;
    UpIsRowParent(items, p.key, c.key);
  }

  // ---------------------------------------------------------------- items on a cycle

  /** Two folders, each of which names the other as its parent. */
  function Knot(): seq<Item> {
    [Item("a", Some("b"), Folder, Create, true, None), Item("b", Some("a"), Folder, Create, true, None)]
  }

  lemma {:induction false} KnotIsNotRooted(d: nat)
    ensures !RootedAt(ParentsOf(Knot()), "a", d) && !RootedAt(ParentsOf(Knot()), "b", d)
  {
    assert Ids(Knot()) == {"a", "b"} && Knot()[0] in Knot() && Knot()[1] in Knot();
    ParentsKeys(Knot());
    if d > 0 { KnotIsNotRooted(d - 1); }
  }

  /** They are on no row. */
  lemma {:induction false} KnotIsOnNoRow()
    ensures Unique(Knot()) && ItemsOn(RowsOfAll(ItemTree(Knot()))) == []
  {
    hide ItemTree, ItemsOn, RowsOfAll, ParentsOf, RootedAt;
    PlacedOnceIffRooted(Knot());
    var on := ItemsOn(RowsOfAll(ItemTree(Knot())));
    if on != [] {
      assert on[0] in Knot() && (on[0].modelId == "a" || on[0].modelId == "b");
      var d: nat :| RootedAt(ParentsOf(Knot()), on[0].modelId, d);
      KnotIsNotRooted(d);
    }
  }
}
