/** The sidebar's build pass: one walk that sorts each folder in place, makes its nodes, and hides
    what the filter does not match. */
module SidebarFilter {
  import opened Forest
  import opened Wrappers
  import opened SidebarOrder
  import opened SidebarTree

  datatype Node = Node(id: string, children: seq<Node>, hidden: bool)

  /** The ids that can have children on show. */
  function Containers(models: seq<Model>, workspace: string): set<string> {
    (set m <- models | m.isFolder :: m.id) + {workspace}
  }

  ghost function Pointers(models: seq<Model>, workspace: string): Parents {
    ParentsIn(models, workspace, Containers(models, workspace))
  }

  ghost function Lists(models: seq<Model>, workspace: string): map<string, seq<string>> {
    KidsIn(models, Containers(models, workspace), true)
  }

  /** The ids that match by themselves: all of them without a query, and else the requests that the
      query accepts. */
  predicate Hit(query: Option<set<string>>, isLeaf: bool, id: string) {
    query.None? || (isLeaf && id in query.value)
  }

  ghost predicate HitIn(models: seq<Model>, workspace: string, query: Option<set<string>>, id: string) {
    Hit(query, id !in Containers(models, workspace), id)
  }

  /** Each list holds its folder's models, sorted already or not yet. */
  ghost predicate Sortable(models: seq<Model>, childrenMap: map<string, seq<Model>>) {
    forall id :: SortModels(Get(childrenMap, id)) == Listed(models, id, true)
  }

  /** The nodes that a walk of t makes. */
  ghost function Made(t: Tree, models: seq<Model>, workspace: string, query: Option<set<string>>): Node {
    var children := MadeAll(t.subs, models, workspace, query);
    Node(t.id, children, !(HitIn(models, workspace, query, t.id) || AnyVisible(children)))
  }

  ghost function MadeAll(ts: seq<Tree>, models: seq<Model>, workspace: string, query: Option<set<string>>): seq<Node> {
    if ts == [] then []
    else MadeAll(ts[..|ts| - 1], models, workspace, query) + [Made(ts[|ts| - 1], models, workspace, query)]
  }

  predicate AnyVisible(ns: seq<Node>) {
    exists n <- ns :: !n.hidden
  }

  class SidebarWalk {
    var childrenMap: map<string, seq<Model>>
    const query: Option<set<string>>

    constructor (childrenMap: map<string, seq<Model>>, query: Option<set<string>>)
      ensures this.childrenMap == childrenMap && this.query == query
    {
      this.childrenMap, this.query := childrenMap, query;
    }

    method Build(
      id: string, isLeaf: bool, ghost models: seq<Model>, ghost workspace: string, ghost seen: set<string>,
      ghost d: nat)
      returns (node: Node)
      requires Setting(models, workspace, Containers(models, workspace)) && Sortable(models, childrenMap)
      requires isLeaf <==> id !in Containers(models, workspace)
      requires RootedAt(Pointers(models, workspace), id, d) && Shallower(Pointers(models, workspace), seen, d)
      modifies this
      ensures Sortable(models, childrenMap)
      ensures node ==
              Made(GrowFrom(Pointers(models, workspace), Lists(models, workspace), id, seen), models, workspace, query)
      decreases |Pointers(models, workspace).Keys - seen|
    {
      hide RootedAt, Shallower, Sortable, Setting, Get, IdsOf, Up, GrowFrom, GrowAllFrom, Made, MadeAll, AnyVisible,
           Pointers, Lists,
        Containers, SortModels, Hit, HitIn;
      ghost var ps, kids, below := Pointers(models, workspace), Lists(models, workspace), seen + {id};
      EnterBuild(models, workspace, query, id, seen, d);
      var matchesSelf := Hit(query, isLeaf, id);
      HitSpelled(models, workspace, query, id, isLeaf);
      var matchesChild := false;
      var children: seq<Node> := [];
      if !isLeaf {
        SortInPlace(models, workspace, childrenMap, id);
        var childItems := SortModels(Get(childrenMap, id));
        childrenMap := childrenMap[id := childItems];
        ghost var ids := Kids(kids, id);
        assert ids == IdsOf(childItems);
        PartialNodesEnds(ps, kids, ids, below, models, workspace, query);
        for k := 0 to |childItems|
          invariant |ids| == |childItems| && Sortable(models, childrenMap)
          invariant children == PartialNodes(ps, kids, ids, k, below, models, workspace, query)
          invariant matchesChild <==> AnyVisible(children)
        {
          hide PartialNodes;
          IdAt(childItems, k);
          ChildIsLeaf(models, workspace, id, childItems, k);
          var childNode := Build(childItems[k].id, !childItems[k].isFolder, models, workspace, below, d + 1);
          PartialNodesPush(ps, kids, ids, k, below, models, workspace, query);
          VisiblePush(children, childNode);
          if !childNode.hidden { matchesChild := true; }
          children := children + [childNode];
        }
      }
      node := Node(id, children, !(matchesSelf || matchesChild));
    }
  }

  lemma HitSpelled(models: seq<Model>, workspace: string, query: Option<set<string>>, id: string, isLeaf: bool)
    requires isLeaf <==> id !in Containers(models, workspace)
    ensures Hit(query, isLeaf, id) <==> HitIn(models, workspace, query, id)
    ensures !AnyVisible([])
  {
  }

  lemma VisiblePush(ns: seq<Node>, n: Node)
    ensures AnyVisible(ns + [n]) <==> AnyVisible(ns) || !n.hidden
  {
    assert forall x :: x in ns + [n] <==> x in ns || x == n;
  }

  /** Sorting one list in place keeps every list sortable to the same order. */
  lemma {:induction false} SortInPlace(
    models: seq<Model>, workspace: string, childrenMap: map<string, seq<Model>>, id: string)
    requires Setting(models, workspace, Containers(models, workspace)) && Sortable(models, childrenMap)
    ensures SortModels(Get(childrenMap, id)) == Listed(models, id, true)
    ensures Sortable(models, childrenMap[id := SortModels(Get(childrenMap, id))])
  {
    hide SortModels;
    var list := Listed(models, id, true);
    GroupedSpelled(models, id);
    SortAgain(Get(Grouped(models), id));
    var after := childrenMap[id := list];
    forall i
      ensures SortModels(Get(after, i)) == Listed(models, i, true)
    {
      if i != id { assert Get(after, i) == Get(childrenMap, i); }
    }
  }

  lemma SettingOfContainers(models: seq<Model>, workspace: string)
    requires UniqueIds(models, workspace)
    ensures Setting(models, workspace, Containers(models, workspace))
  {
  }

  lemma ListsMatch(models: seq<Model>, workspace: string)
    requires Setting(models, workspace, Containers(models, workspace))
    ensures Linked(Pointers(models, workspace), Lists(models, workspace))
    ensures forall i, c :: i in Lists(models, workspace) && c in Lists(models, workspace)[i] ==>
            c in Pointers(models, workspace)
    ensures RootedAt(Pointers(models, workspace), workspace, 0) && workspace in Pointers(models, workspace)
  {
    LinkedModels(models, workspace, Containers(models, workspace), true);
    ParentsSpelled(models, workspace, Containers(models, workspace));
  }

  /** Entering a node on the way down. */
  lemma EnterBuild(
    models: seq<Model>, workspace: string, query: Option<set<string>>, id: string, seen: set<string>, d: nat)
    requires Setting(models, workspace, Containers(models, workspace))
    requires RootedAt(Pointers(models, workspace), id, d) && Shallower(Pointers(models, workspace), seen, d)
    ensures var ps, kids := Pointers(models, workspace), Lists(models, workspace);
            && id in ps && id !in seen && Shallower(ps, seen + {id}, d + 1)
            && |ps.Keys - (seen + {id})| < |ps.Keys - seen|
            && Distinct(Kids(kids, id))
            && (forall c :: c in Kids(kids, id) <==> Up(ps, c) == Some(id))
            && (forall c :: c in Kids(kids, id) ==> c in ps && RootedAt(ps, c, d + 1))
            && Kids(kids, id) == (if id in Containers(models, workspace) then IdsOf(Listed(models, id, true)) else [])
            && GrowFrom(ps, kids, id, seen) == Tree(id, GrowAllFrom(ps, kids, Kids(kids, id), seen + {id}))
            && Made(GrowFrom(ps, kids, id, seen), models, workspace, query) ==
               (var children := MadeAll(GrowAllFrom(ps, kids, Kids(kids, id), seen + {id}), models, workspace, query);
                Node(id, children, !(HitIn(models, workspace, query, id) || AnyVisible(children))))
            && (id !in Containers(models, workspace) ==>
                  MadeAll(GrowAllFrom(ps, kids, Kids(kids, id), seen + {id}), models, workspace, query) == [])
  {
    hide HitIn, Linked, KidsIn, ParentsIn, Shallower, Distinct, Setting;
    var ps, kids := Pointers(models, workspace), Lists(models, workspace);
    ListsMatch(models, workspace);
    OneDeeper(ps, id, seen, d);
    ChildrenDepth(ps, kids, id, d);
    KidsSpelled(models, workspace, Containers(models, workspace), true, id);
    assert ps.Keys - (seen + {id}) == (ps.Keys - seen) - {id};
    GrowAllIsEach(ps, kids, Kids(kids, id), seen + {id});
  }

  /** A model is a leaf of the walk exactly when it is not a folder. */
  lemma ChildIsLeaf(models: seq<Model>, workspace: string, id: string, childItems: seq<Model>, k: nat)
    requires Setting(models, workspace, Containers(models, workspace)) && k < |childItems|
    requires childItems == Listed(models, id, true)
    ensures !childItems[k].isFolder <==> childItems[k].id !in Containers(models, workspace)
  {
    hide SortModels, Grouped;
    var m := childItems[k];
    GroupedSpelled(models, id);
    assert m in childItems && m in models;
    if m.id in Containers(models, workspace) {
      var f :| f in models && f.isFolder && f.id == m.id;
      var p :| 0 <= p < |models| && models[p] == f;
      var q :| 0 <= q < |models| && models[q] == m;
      assert p == q;
    }
  }

  /** The nodes after k children. */
  ghost function PartialNodes(
    ps: Parents, kids: map<string, seq<string>>, ids: seq<string>, k: nat, seen: set<string>,
    models: seq<Model>, workspace: string, query: Option<set<string>>): seq<Node>
    requires k <= |ids|
  {
    MadeAll(GrowAllFrom(ps, kids, ids[..k], seen), models, workspace, query)
  }

  lemma PartialNodesEnds(
    ps: Parents, kids: map<string, seq<string>>, ids: seq<string>, seen: set<string>,
    models: seq<Model>, workspace: string, query: Option<set<string>>)
    ensures PartialNodes(ps, kids, ids, 0, seen, models, workspace, query) == []
    ensures PartialNodes(ps, kids, ids, |ids|, seen, models, workspace, query) ==
            MadeAll(GrowAllFrom(ps, kids, ids, seen), models, workspace, query)
  {
    assert ids[..|ids|] == ids;
  }

  lemma PartialNodesPush(
    ps: Parents, kids: map<string, seq<string>>, ids: seq<string>, k: nat, seen: set<string>,
    models: seq<Model>, workspace: string, query: Option<set<string>>)
    requires k < |ids|
    ensures PartialNodes(ps, kids, ids, k + 1, seen, models, workspace, query) ==
            PartialNodes(ps, kids, ids, k, seen, models, workspace, query) +
            [Made(GrowFrom(ps, kids, ids[k], seen), models, workspace, query)]
  {
    hide GrowFrom, Made;
    var all := GrowAllFrom(ps, kids, ids[..k + 1], seen);
    assert all[..k] == GrowAllFrom(ps, kids, ids[..k], seen) && all[k] == GrowFrom(ps, kids, ids[k], seen);
  }

  // ---------------------------------------------------------------- what is on show

  /** A node is hidden exactly when no model in its subtree matches, and its children are its
      folder's models in the order of the comparator; so is every node beneath it. */
  ghost predicate Right(models: seq<Model>, workspace: string, query: Option<set<string>>, n: Node) {
    && (n.hidden <==> forall x :: Below(Pointers(models, workspace), x, n.id) ==> !HitIn(models, workspace, query, x))
    && ChildIds(n) == (if n.id in Containers(models, workspace) then IdsOf(Listed(models, n.id, true)) else [])
    && Sorted(Listed(models, n.id, true))
    && forall c <- n.children :: Right(models, workspace, query, c)
  }

  function ChildIds(n: Node): seq<string> {
    seq(|n.children|, k requires 0 <= k < |n.children| => n.children[k].id)
  }

  ghost predicate VisibleOf(models: seq<Model>, workspace: string, query: Option<set<string>>, id: string) {
    exists x :: Below(Pointers(models, workspace), x, id) && HitIn(models, workspace, query, x)
  }

  lemma {:induction false} MadeIsRight(
    models: seq<Model>, workspace: string, query: Option<set<string>>, id: string, seen: set<string>, d: nat)
    requires Setting(models, workspace, Containers(models, workspace))
    requires RootedAt(Pointers(models, workspace), id, d) && Shallower(Pointers(models, workspace), seen, d)
    ensures var t := GrowFrom(Pointers(models, workspace), Lists(models, workspace), id, seen);
            var n := Made(t, models, workspace, query);
            n.id == id && Right(models, workspace, query, n) && (n.hidden <==> !VisibleOf(models, workspace, query, id))
    decreases |Pointers(models, workspace).Keys - seen|, 1
  {
    hide Setting, RootedAt, Shallower, Pointers, Lists, HitIn, GrowFrom, GrowAllFrom, Made, MadeAll, Below, Kids, Up,
         Containers, Sorted,
      Right, Listed, AnyVisible, VisibleOf, IdsOf, Get;
    var ps, kids := Pointers(models, workspace), Lists(models, workspace);
    EnterBuild(models, workspace, query, id, seen, d);
    var ids := Kids(kids, id);
    MadeAllAreRight(models, workspace, query, ids, seen + {id}, d + 1);
    var children := MadeAll(GrowAllFrom(ps, kids, ids, seen + {id}), models, workspace, query);
    var n := Node(id, children, !(HitIn(models, workspace, query, id) || AnyVisible(children)));
    assert Rooted(ps, id);
    VisibleByChild(models, workspace, query, id, ids);
    assert AnyVisible(children) <==> exists c :: c in ids && VisibleOf(models, workspace, query, c) by {
      AnyVisibleSpelled(models, workspace, query, children, ids);
    }
    assert ChildIds(n) == ids;
    ListedSorted(models, workspace, id);
    RightFromParts(models, workspace, query, n);
  }

  lemma RightFromParts(models: seq<Model>, workspace: string, query: Option<set<string>>, n: Node)
    requires n.hidden <==> !VisibleOf(models, workspace, query, n.id)
    requires ChildIds(n) == if n.id in Containers(models, workspace) then IdsOf(Listed(models, n.id, true)) else []
    requires Sorted(Listed(models, n.id, true))
    requires forall c <- n.children :: Right(models, workspace, query, c)
    ensures Right(models, workspace, query, n)
  {
    hide Containers, Pointers, HitIn, Below, Sorted, IdsOf, ChildIds;
  }

  lemma ListedSorted(models: seq<Model>, workspace: string, id: string)
    requires Setting(models, workspace, Containers(models, workspace))
    ensures Sorted(Listed(models, id, true))
  {
    GroupedSpelled(models, id);
    SortModelsSorted(Get(Grouped(models), id));
  }

  lemma AnyVisibleSpelled(
    models: seq<Model>, workspace: string, query: Option<set<string>>, children: seq<Node>, ids: seq<string>)
    requires |children| == |ids|
    requires forall k :: 0 <= k < |ids| ==> (children[k].hidden <==> !VisibleOf(models, workspace, query, ids[k]))
    ensures AnyVisible(children) <==> exists c :: c in ids && VisibleOf(models, workspace, query, c)
  {
    hide VisibleOf;
    if AnyVisible(children) {
      var n :| n in children && !n.hidden;
      var k :| 0 <= k < |children| && children[k] == n;
      assert ids[k] in ids;
    }
    if c :| c in ids && VisibleOf(models, workspace, query, c) {
      var k :| 0 <= k < |ids| && ids[k] == c;
      assert children[k] in children;
    }
  }

  lemma VisibleByChild(models: seq<Model>, workspace: string, query: Option<set<string>>, id: string, ids: seq<string>)
    requires Rooted(Pointers(models, workspace), id)
    requires forall c :: c in ids <==> Up(Pointers(models, workspace), c) == Some(id)
    ensures VisibleOf(models, workspace, query, id) <==>
            HitIn(models, workspace, query, id) || exists c :: c in ids && VisibleOf(models, workspace, query, c)
  {
    hide Pointers, HitIn, Below, Up;
    var ps := Pointers(models, workspace);
    if VisibleOf(models, workspace, query, id) {
      var x :| Below(ps, x, id) && HitIn(models, workspace, query, x);
      BelowByChild(ps, x, id, ids);
    }
    if c :| c in ids && VisibleOf(models, workspace, query, c) {
      var x :| Below(ps, x, c) && HitIn(models, workspace, query, x);
      BelowByChild(ps, x, id, ids);
    }
    BelowItself(ps, id);
  }

  lemma {:induction false} MadeAllAreRight(
    models: seq<Model>, workspace: string, query: Option<set<string>>, ids: seq<string>, seen: set<string>, d: nat)
    requires Setting(models, workspace, Containers(models, workspace)) &&
             Shallower(Pointers(models, workspace), seen, d)
    requires forall c :: c in ids ==> RootedAt(Pointers(models, workspace), c, d)
    ensures var ts := GrowAllFrom(Pointers(models, workspace), Lists(models, workspace), ids, seen);
            var ns := MadeAll(ts, models, workspace, query);
            && |ns| == |ids|
            && (forall n <- ns :: Right(models, workspace, query, n))
            && forall k :: 0 <= k < |ids| ==>
                 ns[k].id == ids[k] && (ns[k].hidden <==> !VisibleOf(models, workspace, query, ids[k]))
    decreases |Pointers(models, workspace).Keys - seen|, 2, |ids|
  {
    hide Setting, RootedAt, Shallower, Pointers, Lists, GrowFrom, Made, Right, VisibleOf, Containers;
    if ids != [] {
      var k := |ids| - 1;
      var ps, kids := Pointers(models, workspace), Lists(models, workspace);
      MadeIsRight(models, workspace, query, ids[k], seen, d);
      MadeAllAreRight(models, workspace, query, ids[..k], seen, d);
      PartialNodesPush(ps, kids, ids, k, seen, models, workspace, query);
      PartialNodesEnds(ps, kids, ids, seen, models, workspace, query);
      PartialSpelled(ps, kids, ids, k, seen, models, workspace, query);
    }
  }

  lemma PartialSpelled(
    ps: Parents, kids: map<string, seq<string>>, ids: seq<string>, k: nat, seen: set<string>,
    models: seq<Model>, workspace: string, query: Option<set<string>>)
    requires k <= |ids|
    ensures PartialNodes(ps, kids, ids, k, seen, models, workspace, query) ==
            MadeAll(GrowAllFrom(ps, kids, ids[..k], seen), models, workspace, query)
  {
  }

  /** The ids of a node and of everything beneath it. */
  function NodeIds(n: Node): seq<string> {
    [n.id] + NodeIdsOfAll(n.children)
  }

  function NodeIdsOfAll(ns: seq<Node>): seq<string> {
    if ns == [] then [] else NodeIds(ns[0]) + NodeIdsOfAll(ns[1..])
  }

  lemma {:induction false} MadeIds(t: Tree, models: seq<Model>, workspace: string, query: Option<set<string>>)
    ensures NodeIds(Made(t, models, workspace, query)) == Keys(t)
    decreases t
  {
    hide HitIn, AnyVisible;
    MadeAllIds(t.subs, models, workspace, query);
  }

  lemma {:induction false} MadeAllIds(ts: seq<Tree>, models: seq<Model>, workspace: string, query: Option<set<string>>)
    ensures NodeIdsOfAll(MadeAll(ts, models, workspace, query)) == KeysOfAll(ts)
    decreases ts
  {
    if ts != [] {
      hide HitIn, AnyVisible, Made;
      var n := |ts| - 1;
      assert ts == ts[..n] + [ts[n]];
      MadeAllIds(ts[..n], models, workspace, query);
      MadeIds(ts[n], models, workspace, query);
      NodeIdsPush(MadeAll(ts[..n], models, workspace, query), Made(ts[n], models, workspace, query));
      KeysPush(ts[..n], ts[n]);
    }
  }

  lemma {:induction false} NodeIdsPush(ns: seq<Node>, n: Node)
    ensures NodeIdsOfAll(ns + [n]) == NodeIdsOfAll(ns) + NodeIds(n)
  {
    hide NodeIds;
    if ns == [] {
      assert ns + [n] == [n] && [n][1..] == [];
    } else {
      assert (ns + [n])[0] == ns[0] && (ns + [n])[1..] == ns[1..] + [n];
      NodeIdsPush(ns[1..], n);
    }
  }

  lemma {:induction false} KeysPush(ts: seq<Tree>, t: Tree)
    ensures KeysOfAll(ts + [t]) == KeysOfAll(ts) + Keys(t)
  {
    hide Keys;
    if ts == [] {
      assert ts + [t] == [t] && [t][1..] == [];
    } else {
      assert (ts + [t])[0] == ts[0] && (ts + [t])[1..] == ts[1..] + [t];
      KeysPush(ts[1..], t);
    }
  }

  // ---------------------------------------------------------------- the same, by the fields of the models

  /** The model with id x comes before the one with id y. */
  ghost predicate Precedes(models: seq<Model>, x: string, y: string) {
    forall a, b :: a in models && b in models && a.id == x && b.id == y ==>
      || a.sortPriority < b.sortPriority
      || (a.sortPriority == b.sortPriority && TextLess(a.createdAt, b.createdAt))
      || (a.sortPriority == b.sortPriority && a.createdAt == b.createdAt && TextLess(a.id, b.id))
  }

  /** The node is hidden if and only if there is a query and it accepts no request beneath it. Its
      children are the models that hang in it, if it is the workspace or a folder, by priority, then
      age, then id. The same holds of every node beneath it. */
  ghost predicate Shown(models: seq<Model>, workspace: string, query: Option<set<string>>, n: Node) {
    var holders := {workspace} + set f <- models | f.isFolder :: f.id;
    && (n.hidden <==>
          query.Some? &&
          forall m <- models :: m.id in query.value && HangsBelow(models, holders, m.id, n.id) ==> m.isFolder)
    && (forall m <- models :: (exists c :: c in n.children && c.id == m.id) <==> HangsIn(m, n.id) && n.id in holders)
    && (forall c <- n.children :: exists m :: m in models && m.id == c.id)
    && (forall j, k :: 0 <= j < k < |n.children| ==> Precedes(models, n.children[j].id, n.children[k].id))
    && forall c <- n.children :: Shown(models, workspace, query, c)
  }

  lemma HoldersAreContainers(models: seq<Model>, workspace: string)
    ensures {workspace} + (set f <- models | f.isFolder :: f.id) == Containers(models, workspace)
  {
  }

  lemma OneModel(models: seq<Model>, a: Model, b: Model)
    requires DistinctIds(models) && a in models && b in models && a.id == b.id
    ensures a == b
  {
    var p :| 0 <= p < |models| && models[p] == a;
    var q :| 0 <= q < |models| && models[q] == b;
    assert p == q;
  }

  lemma HiddenSpelled(models: seq<Model>, workspace: string, query: Option<set<string>>, id: string)
    requires UniqueIds(models, workspace) && Rooted(Pointers(models, workspace), id)
    ensures var holders := Containers(models, workspace);
            VisibleOf(models, workspace, query, id) <==>
            query.Some? ==> exists m :: m in models && !m.isFolder && m.id in query.value &&
                                        HangsBelow(models, holders, m.id, id)
  {
    hide HangsBelow, Below, Rooted, ParentsIn;
    var holders, ps := Containers(models, workspace), Pointers(models, workspace);
    if query.None? {
      BelowItself(ps, id);
    } else {
      if x :| Below(ps, x, id) && HitIn(models, workspace, query, x) {
        BelowRooted(ps, x, id);
        RootedInPointers(models, workspace, x);
        BelowIffClimbs(models, workspace, holders, x, id);
      }
      if m :| m in models && !m.isFolder && m.id in query.value && HangsBelow(models, holders, m.id, id) {
        BelowIffClimbs(models, workspace, holders, m.id, id);
        LeafIsNoContainer(models, workspace, m);
      }
    }
  }

  lemma RootedInPointers(models: seq<Model>, workspace: string, x: string)
    requires UniqueIds(models, workspace) && Rooted(Pointers(models, workspace), x)
    ensures x in Containers(models, workspace) || exists m :: m in models && !m.isFolder && m.id == x
  {
    hide ParentsIn;
    PointersSpelled(models, workspace, Containers(models, workspace));
  }

  lemma LeafIsNoContainer(models: seq<Model>, workspace: string, m: Model)
    requires UniqueIds(models, workspace) && m in models && !m.isFolder
    ensures m.id !in Containers(models, workspace)
  {
    if m.id in Containers(models, workspace) {
      var f :| f in models && f.isFolder && f.id == m.id;
      OneModel(models, f, m);
    }
  }

  lemma ChildrenSpelled(models: seq<Model>, workspace: string, n: Node)
    requires UniqueIds(models, workspace)
    requires ChildIds(n) == if n.id in Containers(models, workspace) then IdsOf(Listed(models, n.id, true)) else []
    ensures forall m <- models :: (exists c :: c in n.children && c.id == m.id) <==>
                                  HangsIn(m, n.id) && n.id in Containers(models, workspace)
    ensures forall c <- n.children :: exists m :: m in models && m.id == c.id
  {
    hide HangsIn, Grouped, SortModels, Containers;
    var list := Listed(models, n.id, true);
    ListedWhereTheyHang(models, n.id);
    assert forall k :: 0 <= k < |n.children| ==> n.children[k].id == ChildIds(n)[k];
    forall m | m in models
      ensures (exists c :: c in n.children && c.id == m.id) <==>
              HangsIn(m, n.id) && n.id in Containers(models, workspace)
    {
      if c :| c in n.children && c.id == m.id {
        var k :| 0 <= k < |n.children| && n.children[k] == c;
        assert list[k] in list;
        OneModel(models, list[k], m);
      }
      if HangsIn(m, n.id) && n.id in Containers(models, workspace) {
        assert m in list;
        var k :| 0 <= k < |list| && list[k] == m;
        assert n.children[k] in n.children;
      }
    }
    forall c | c in n.children
      ensures exists m :: m in models && m.id == c.id
    {
      var k :| 0 <= k < |n.children| && n.children[k] == c;
      assert list[k] in list;
    }
  }

  lemma ChildrenPrecede(models: seq<Model>, workspace: string, n: Node, j: nat, k: nat)
    requires UniqueIds(models, workspace)
    requires ChildIds(n) == if n.id in Containers(models, workspace) then IdsOf(Listed(models, n.id, true)) else []
    requires Sorted(Listed(models, n.id, true)) && j < k < |n.children|
    ensures Precedes(models, n.children[j].id, n.children[k].id)
  {
    hide Before, Grouped, SortModels, Containers, HangsIn;
    var list := Listed(models, n.id, true);
    ListedWhereTheyHang(models, n.id);
    assert n.children[j].id == ChildIds(n)[j] && n.children[k].id == ChildIds(n)[k];
    assert list[j] in list && list[k] in list;
    BeforeSpelled(list[j], list[k]);
    forall a, b | a in models && b in models && a.id == n.children[j].id && b.id == n.children[k].id
      ensures a == list[j] && b == list[k]
    {
      OneModel(models, a, list[j]);
      OneModel(models, b, list[k]);
    }
  }

  lemma {:induction false} RightIsShown(models: seq<Model>, workspace: string, query: Option<set<string>>, n: Node)
    requires UniqueIds(models, workspace) && Rooted(Pointers(models, workspace), n.id)
    requires Right(models, workspace, query, n)
    ensures Shown(models, workspace, query, n)
    decreases n
  {
    hide UniqueIds, Rooted, Pointers, Containers, HangsIn, HangsBelow, Below, Precedes, Sorted, Listed, HitIn, ChildIds,
         IdsOf;
    HoldersAreContainers(models, workspace);
    HiddenSpelled(models, workspace, query, n.id);
    ChildrenSpelled(models, workspace, n);
    forall j, k | 0 <= j < k < |n.children|
      ensures Precedes(models, n.children[j].id, n.children[k].id)
    {
      ChildrenPrecede(models, workspace, n, j, k);
    }
    forall c | c in n.children
      ensures Shown(models, workspace, query, c)
    {
      ChildIsRooted(models, workspace, n, c);
      RightIsShown(models, workspace, query, c);
    }
  }

  lemma ChildIsRooted(models: seq<Model>, workspace: string, n: Node, c: Node)
    requires UniqueIds(models, workspace) && Rooted(Pointers(models, workspace), n.id) && c in n.children
    requires ChildIds(n) == if n.id in Containers(models, workspace) then IdsOf(Listed(models, n.id, true)) else []
    ensures Rooted(Pointers(models, workspace), c.id)
  {
    hide ParentsIn, Listed, Grouped;
    var ps := Pointers(models, workspace);
    ChildrenSpelled(models, workspace, n);
    var m :| m in models && m.id == c.id;
    PointersSpelled(models, workspace, Containers(models, workspace));
    assert n.id in ps by { var d: nat :| RootedAt(ps, n.id, d); }
    assert Up(ps, c.id) == Some(n.id);
    var d: nat :| RootedAt(ps, n.id, d);
    assert RootedAt(ps, c.id, d + 1);
  }

  /** Building the sidebar reaches exactly what hangs beneath the workspace in folders, each once,
      also when other folders form cycles, and every node is right. */
  method BuildSidebar(models: seq<Model>, workspace: string, query: Option<set<string>>) returns (root: Node)
    requires UniqueIds(models, workspace)
    ensures Right(models, workspace, query, root) && root.id == workspace
    ensures Distinct(NodeIds(root))
    ensures forall x :: x in NodeIds(root) <==> Below(Pointers(models, workspace), x, workspace)
    ensures Shown(models, workspace, query, root)
    ensures var holders := {workspace} + set f <- models | f.isFolder :: f.id;
            forall x :: x in NodeIds(root) <==> HangsBelow(models, holders, x, workspace)
  {
    hide Setting, RootedAt, Shallower, Pointers, Lists, Right, Grouped, Made, GrowFrom, Containers, Linked, Below,
         NodeIds, Shown, HangsBelow, UniqueIds;
    ghost var ps, kids := Pointers(models, workspace), Lists(models, workspace);
    SettingOfContainers(models, workspace);
    ListsMatch(models, workspace);
    var groups := GroupByParent(models);
    GroupedSortable(models);
    NothingShallow(ps);
    WorkspaceIsContainer(models, workspace);
    var walk := new SidebarWalk(groups, query);
    root := walk.Build(workspace, false, models, workspace, {}, 0);
    MadeIsRight(models, workspace, query, workspace, {}, 0);
    GrowFromIsGrow(ps, kids, workspace);
    GrowHoldsSubtree(ps, kids, workspace, {}, 0);
    MadeIds(Grow(ps, kids, workspace, {}), models, workspace, query);
    assert Rooted(ps, workspace);
    RightIsShown(models, workspace, query, root);
    NodesHangBelow(models, workspace);
  }

  lemma NodesHangBelow(models: seq<Model>, workspace: string)
    requires UniqueIds(models, workspace) && Rooted(Pointers(models, workspace), workspace)
    ensures var holders := {workspace} + set f <- models | f.isFolder :: f.id;
            forall x :: Below(Pointers(models, workspace), x, workspace) <==> HangsBelow(models, holders, x, workspace)
  {
    hide Below, HangsBelow, ParentsIn, Rooted;
    HoldersAreContainers(models, workspace);
    forall x
      ensures Below(Pointers(models, workspace), x, workspace) <==>
              HangsBelow(models, Containers(models, workspace), x, workspace)
    {
      BelowIffClimbs(models, workspace, Containers(models, workspace), x, workspace);
    }
  }

  lemma GroupedSortable(models: seq<Model>)
    ensures Sortable(models, Grouped(models))
  {
  }

  lemma WorkspaceIsContainer(models: seq<Model>, workspace: string)
    ensures workspace in Containers(models, workspace)
  {
  }

  lemma GrowFromIsGrow(ps: Parents, kids: map<string, seq<string>>, id: string)
    requires id in ps && forall i, c :: i in kids && c in kids[i] ==> c in ps
    ensures GrowFrom(ps, kids, id, {}) == Grow(ps, kids, id, {})
  {
  }
}
