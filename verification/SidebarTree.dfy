/** The sidebar's tree: models grouped under their folders, git statuses rolled up, and filter visibility. */
module SidebarTree {
  import opened Forest
  import opened Wrappers
  import opened SidebarOrder

  function ParentId(m: Model): string {
    if m.folderId.None? then m.workspaceId else m.folderId.value
  }

  /** m hangs in id: its folder is id, or it is in no folder and its workspace is id. */
  predicate HangsIn(m: Model, id: string) {
    m.folderId == Some(id) || (m.folderId.None? && m.workspaceId == id)
  }

  function Get(childrenMap: map<string, seq<Model>>, id: string): seq<Model> {
    if id in childrenMap then childrenMap[id] else []
  }

  /** Every model appended to the list of its folder, or of its workspace. */
  function Grouped(models: seq<Model>): map<string, seq<Model>> {
    if models == [] then map[]
    else
      var m, g := models[|models| - 1], Grouped(models[..|models| - 1]);
      g[ParentId(m) := Get(g, ParentId(m)) + [m]]
  }

  /** models lists a before b. */
  ghost predicate Earlier(models: seq<Model>, a: Model, b: Model) {
    exists p, q :: 0 <= p < q < |models| && models[p] == a && models[q] == b
  }

  /** list is in the order of models. */
  ghost predicate InOrder(models: seq<Model>, list: seq<Model>) {
    forall j, k :: 0 <= j < k < |list| ==> Earlier(models, list[j], list[k])
  }

  /** The list of id: the models that hang in it, in the order in which they are given. */
  lemma {:induction false} ListedWhereTheyHang(models: seq<Model>, id: string)
    ensures forall m :: m in Get(Grouped(models), id) <==> m in models && HangsIn(m, id)
    ensures InOrder(models, Get(Grouped(models), id))
  {
    hide Earlier;
    if models != [] {
      var n := |models| - 1;
      assert models == models[..n] + [models[n]];
      ListedWhereTheyHang(models[..n], id);
      var front := Get(Grouped(models[..n]), id);
      assert Get(Grouped(models), id) == front + if HangsIn(models[n], id) then [models[n]] else [];
      InOrderPush(models[..n], models[n], front);
    }
  }

  lemma InOrderPush(models: seq<Model>, m: Model, list: seq<Model>)
    requires InOrder(models, list) && forall x <- list :: x in models
    ensures InOrder(models + [m], list) && InOrder(models + [m], list + [m])
  {
    hide Earlier;
    forall j, k | 0 <= j < k < |list + [m]|
      ensures Earlier(models + [m], (list + [m])[j], (list + [m])[k])
    {
      EarlierPush(models, m, list[j], (list + [m])[k]);
    }
    assert forall k :: 0 <= k < |list| ==> (list + [m])[k] == list[k];
  }

  lemma EarlierPush(models: seq<Model>, m: Model, a: Model, b: Model)
    ensures Earlier(models, a, b) || (a in models && b == m) ==> Earlier(models + [m], a, b)
  {
    if Earlier(models, a, b) {
      var p, q :| 0 <= p < q < |models| && models[p] == a && models[q] == b;
      assert (models + [m])[p] == a && (models + [m])[q] == b;
    } else if a in models && b == m {
      var p :| 0 <= p < |models| && models[p] == a;
      assert (models + [m])[p] == a && (models + [m])[|models|] == b;
    }
  }

  method GroupByParent(models: seq<Model>) returns (childrenMap: map<string, seq<Model>>)
    ensures childrenMap == Grouped(models)
    ensures forall id, m :: m in Get(childrenMap, id) <==> m in models && HangsIn(m, id)
    ensures forall id :: InOrder(models, Get(childrenMap, id))
  {
    childrenMap := map[];
    for k := 0 to |models|
      invariant childrenMap == Grouped(models[..k])
    {
      var item := models[k];
      assert models[..k + 1][..k] == models[..k];
      if item.folderId.None? {
        childrenMap := childrenMap[item.workspaceId := Get(childrenMap, item.workspaceId) + [item]];
      } else {
        childrenMap := childrenMap[item.folderId.value := Get(childrenMap, item.folderId.value) + [item]];
      }
    }
    assert models[..|models|] == models;
    forall id
      ensures forall m :: m in Get(childrenMap, id) <==> m in models && HangsIn(m, id)
      ensures InOrder(models, Get(childrenMap, id))
    {
      ListedWhereTheyHang(models, id);
    }
  }

  // ---------------------------------------------------------------- the parent pointers behind the lists

  function ModelIds(models: seq<Model>): set<string> {
    set m <- models :: m.id
  }

  /** Parent pointers of the models that hang in one of the containers, and of the workspace. */
  function ParentsIn(models: seq<Model>, workspace: string, containers: set<string>): Parents {
    if models == [] then map[workspace := None]
    else
      var m := models[|models| - 1];
      ParentsIn(models[..|models| - 1], workspace, containers)
        [m.id := if ParentId(m) in containers then Some(ParentId(m)) else None]
  }

  ghost predicate UniqueIds(models: seq<Model>, workspace: string) {
    DistinctIds(models) && workspace !in ModelIds(models)
  }

  lemma {:induction false} ParentsSpelled(models: seq<Model>, workspace: string, containers: set<string>)
    requires UniqueIds(models, workspace)
    ensures var ps := ParentsIn(models, workspace, containers);
            && ps.Keys == ModelIds(models) + {workspace} && ps[workspace] == None
            && forall m :: m in models ==> ps[m.id] == if ParentId(m) in containers then Some(ParentId(m)) else None
  {
    if models != [] {
      var n := |models| - 1;
      assert models == models[..n] + [models[n]];
      assert forall m :: m in models[..n] ==> m.id != models[n].id;
      assert models[n] in models;
      ParentsSpelled(models[..n], workspace, containers);
    }
  }

  lemma GroupedSpelled(models: seq<Model>, id: string)
    requires DistinctIds(models)
    ensures forall m :: m in Get(Grouped(models), id) <==> m in models && ParentId(m) == id
    ensures DistinctIds(Get(Grouped(models), id))
  {
    hide Grouped, Get;
    var list := Get(Grouped(models), id);
    ListedWhereTheyHang(models, id);
    forall j, k | 0 <= j < k < |list|
      ensures list[j].id != list[k].id
    {
      assert Earlier(models, list[j], list[k]);
    }
  }

  /** The parent pointers: each model points at the container it hangs in, if it is one. */
  lemma PointersSpelled(models: seq<Model>, workspace: string, containers: set<string>)
    requires UniqueIds(models, workspace)
    ensures var ps := ParentsIn(models, workspace, containers);
            && ps.Keys == ModelIds(models) + {workspace} && ps[workspace] == None
            && forall m, id :: m in models ==> (ps[m.id] == Some(id) <==> HangsIn(m, id) && id in containers)
  {
    ParentsSpelled(models, workspace, containers);
    hide ParentsIn, UniqueIds;
  }

  /** From x up to id in n steps, each from a model to the container it hangs in. */
  ghost predicate Climbs(models: seq<Model>, containers: set<string>, x: string, id: string, n: nat)
    decreases n
  {
    if n == 0 then x == id
    else exists m, p :: m in models && m.id == x && HangsIn(m, p) && p in containers &&
                        Climbs(models, containers, p, id, n - 1)
  }

  /** x is id, or hangs somewhere beneath it. */
  ghost predicate HangsBelow(models: seq<Model>, containers: set<string>, x: string, id: string) {
    exists n: nat :: Climbs(models, containers, x, id, n)
  }

  lemma UpIsHolder(models: seq<Model>, workspace: string, containers: set<string>, x: string, p: string)
    requires Setting(models, workspace, containers)
    ensures Up(ParentsIn(models, workspace, containers), x) == Some(p) <==>
            p in containers && exists m :: m in models && m.id == x && HangsIn(m, p)
  {
    hide HangsIn, ParentsIn;
    PointersSpelled(models, workspace, containers);
  }

  lemma {:induction false} AncestorsClimb(
    models: seq<Model>, workspace: string, containers: set<string>, x: string, id: string, seen: set<string>)
    returns (n: nat)
    requires Setting(models, workspace, containers)
    requires id in Ancestors(ParentsIn(models, workspace, containers), x, seen)
    ensures n > 0 && Climbs(models, containers, x, id, n)
    decreases |ParentsIn(models, workspace, containers).Keys - seen|
  {
    hide HangsIn, ParentsIn, Setting;
    var ps := ParentsIn(models, workspace, containers);
    var p := Up(ps, x).value;
    UpIsHolder(models, workspace, containers, x, p);
    assert ps.Keys - (seen + {p}) == (ps.Keys - seen) - {p};
    n := 0;
    if p != id { n := AncestorsClimb(models, workspace, containers, p, id, seen + {p}); }
    var m :| m in models && m.id == x && HangsIn(m, p);
    assert Climbs(models, containers, p, id, n);
    n := n + 1;
  }

  lemma {:induction false} ClimbsChain(
    models: seq<Model>, workspace: string, containers: set<string>, x: string, id: string, n: nat, d: nat)
    requires Setting(models, workspace, containers) && Climbs(models, containers, x, id, n)
    requires RootedAt(ParentsIn(models, workspace, containers), id, d)
    ensures var ps := ParentsIn(models, workspace, containers);
            RootedAt(ps, x, d + n) && (n > 0 ==> id in Chain(ps, x, d + n))
    decreases n
  {
    hide HangsIn, ParentsIn, Setting, Up;
    if n > 0 {
      var m, p :| m in models && m.id == x && HangsIn(m, p) && p in containers &&
                  Climbs(models, containers, p, id, n - 1);
      UpIsHolder(models, workspace, containers, x, p);
      UpKnown(ParentsIn(models, workspace, containers), x);
      ClimbsChain(models, workspace, containers, p, id, n - 1, d);
    }
  }

  lemma UpKnown(ps: Parents, x: string)
    ensures Up(ps, x).Some? ==> x in ps
  {
  }

  /** What lies beneath id in the forest is what hangs beneath it. */
  lemma BelowIffClimbs(models: seq<Model>, workspace: string, containers: set<string>, x: string, id: string)
    requires Setting(models, workspace, containers) && Rooted(ParentsIn(models, workspace, containers), id)
    ensures Below(ParentsIn(models, workspace, containers), x, id) <==> HangsBelow(models, containers, x, id)
  {
    hide HangsIn, ParentsIn, Setting, Ancestors, Climbs, RootedAt;
    var ps := ParentsIn(models, workspace, containers);
    if x == id {
      assert Climbs(models, containers, x, id, 0) by { ClimbsNowhere(models, containers, x); }
    } else if id in Ancestors(ps, x, {}) {
      var n := AncestorsClimb(models, workspace, containers, x, id, {});
    } else if n: nat :| Climbs(models, containers, x, id, n) {
      var d: nat :| RootedAt(ps, id, d);
      ClimbsChain(models, workspace, containers, x, id, n, d);
      AncestorsAreChain(ps, x, d + n, {});
      if n == 0 { ClimbsEnd(models, containers, x, id); }
    }
  }

  lemma ClimbsNowhere(models: seq<Model>, containers: set<string>, x: string)
    ensures Climbs(models, containers, x, x, 0)
  {
  }

  lemma ClimbsEnd(models: seq<Model>, containers: set<string>, x: string, id: string)
    requires Climbs(models, containers, x, id, 0)
    ensures x == id
  {
  }

  lemma IdsMember(list: seq<Model>, id: string)
    ensures id in IdsOf(list) <==> exists m :: m in list && m.id == id
    ensures DistinctIds(list) ==> Distinct(IdsOf(list))
  {
    if m :| m in list && m.id == id {
      var k :| 0 <= k < |list| && list[k] == m;
      assert IdsOf(list)[k] == id;
    }
    if id in IdsOf(list) {
      var k :| 0 <= k < |list| && IdsOf(list)[k] == id;
      assert list[k] in list;
    }
  }

  /** The lists of child ids, in the order in which a walk passes them. */
  function KidsIn(models: seq<Model>, containers: set<string>, sorted: bool): map<string, seq<string>> {
    var g := Grouped(models);
    map id | id in g && id in containers :: IdsOf(if sorted then SortModels(g[id]) else g[id])
  }

  function Listed(models: seq<Model>, id: string, sorted: bool): seq<Model> {
    if sorted then SortModels(Get(Grouped(models), id)) else Get(Grouped(models), id)
  }

  ghost predicate Setting(models: seq<Model>, workspace: string, containers: set<string>) {
    UniqueIds(models, workspace) && workspace in containers && containers <= ModelIds(models) + {workspace}
  }

  lemma KidsSpelled(models: seq<Model>, workspace: string, containers: set<string>, sorted: bool, id: string)
    requires Setting(models, workspace, containers)
    ensures var ps, kids := ParentsIn(models, workspace, containers), KidsIn(models, containers, sorted);
            && Distinct(Kids(kids, id))
            && (forall c :: c in Kids(kids, id) <==> Up(ps, c) == Some(id))
            && (id in containers ==> Kids(kids, id) == IdsOf(Listed(models, id, sorted)))
            && (id !in containers ==> Kids(kids, id) == [])
    ensures DistinctIds(Listed(models, id, sorted)) && forall m :: m in Listed(models, id, sorted) ==> m in models
  {
    var ps, kids := ParentsIn(models, workspace, containers), KidsIn(models, containers, sorted);
    ParentsSpelled(models, workspace, containers);
    GroupedSpelled(models, id);
    SortModelsSorted(Get(Grouped(models), id));
    var list := Listed(models, id, sorted);
    assert id in containers ==> Kids(kids, id) == IdsOf(list);
    forall c
      ensures c in Kids(kids, id) <==> Up(ps, c) == Some(id)
    {
      IdsMember(list, c);
      if Up(ps, c) == Some(id) {
        var m :| m in models && m.id == c;
        assert m in list;
      }
    }
    IdsMember(list, id);
  }

  lemma LinkedModels(models: seq<Model>, workspace: string, containers: set<string>, sorted: bool)
    requires Setting(models, workspace, containers)
    ensures Linked(ParentsIn(models, workspace, containers), KidsIn(models, containers, sorted))
    ensures forall i, c :: i in KidsIn(models, containers, sorted) && c in KidsIn(models, containers, sorted)[i] ==>
              c in ParentsIn(models, workspace, containers)
    ensures RootedAt(ParentsIn(models, workspace, containers), workspace, 0)
  {
    var ps, kids := ParentsIn(models, workspace, containers), KidsIn(models, containers, sorted);
    ParentsSpelled(models, workspace, containers);
    forall id
      ensures Distinct(Kids(kids, id)) && forall c :: c in Kids(kids, id) <==> Up(ps, c) == Some(id)
    {
      KidsSpelled(models, workspace, containers, sorted, id);
    }
    forall i, c | i in kids && c in kids[i]
      ensures c in ps
    {
      KidsSpelled(models, workspace, containers, sorted, i);
    }
  }

  // ---------------------------------------------------------------- git status

  datatype GitStatus = Untracked | Conflict | Current | Modified | Removed | Renamed | TypeChange

  function Summarize(statuses: seq<GitStatus>): Option<GitStatus> {
    if statuses == [] then None
    else if forall s <- statuses :: s == statuses[0] then Some(statuses[0])
    else Some(Modified)
  }

  function DirectOf(direct: map<string, GitStatus>, id: string): seq<GitStatus> {
    if id in direct && direct[id] != Current then [direct[id]] else []
  }

  function AsList(s: Option<GitStatus>): seq<GitStatus> {
    if s.Some? then [s.value] else []
  }

  /** The status of a node from its own and its children's. */
  function RollUp(t: Tree, direct: map<string, GitStatus>): Option<GitStatus> {
    Summarize(DirectOf(direct, t.id) + RollUps(t.subs, direct))
  }

  function RollUps(ts: seq<Tree>, direct: map<string, GitStatus>): seq<GitStatus> {
    if ts == [] then [] else AsList(RollUp(ts[0], direct)) + RollUps(ts[1..], direct)
  }

  function Directs(direct: map<string, GitStatus>, ids: seq<string>): seq<GitStatus> {
    if ids == [] then [] else DirectOf(direct, ids[0]) + Directs(direct, ids[1..])
  }

  function Join(x: Option<GitStatus>, y: Option<GitStatus>): Option<GitStatus> {
    if x.None? then y else if y.None? || x == y then x else Some(Modified)
  }

  lemma SummarizeConcat(a: seq<GitStatus>, b: seq<GitStatus>)
    ensures Summarize(a + b) == Join(Summarize(a), Summarize(b))
  {
    if a == [] {
      assert a + b == b;
    } else if b == [] {
      assert a + b == a;
    } else {
      assert forall s :: s in a + b <==> s in a || s in b;
      assert (a + b)[0] == a[0] && a[0] in a && b[0] in b;
    }
  }

  lemma SummarizeList(s: Option<GitStatus>)
    ensures Summarize(AsList(s)) == s
  {
  }

  lemma {:induction false} DirectsConcat(direct: map<string, GitStatus>, a: seq<string>, b: seq<string>)
    ensures Directs(direct, a + b) == Directs(direct, a) + Directs(direct, b)
  {
    if a == [] {
      assert a + b == b;
    } else {
      hide DirectOf;
      assert (a + b)[0] == a[0] && (a + b)[1..] == a[1..] + b;
      DirectsConcat(direct, a[1..], b);
      var first, rest := DirectOf(direct, a[0]), Directs(direct, a[1..]);
      assert first + (rest + Directs(direct, b)) == first + rest + Directs(direct, b);
    }
  }

  /** Rolling up folder by folder gives what one look at everything beneath gives. */
  lemma {:induction false} RollUpIsFlat(t: Tree, direct: map<string, GitStatus>)
    ensures RollUp(t, direct) == Summarize(Directs(direct, Keys(t)))
    decreases t
  {
    hide Summarize, DirectOf;
    RollUpsAreFlat(t.subs, direct);
    SummarizeConcat(DirectOf(direct, t.id), RollUps(t.subs, direct));
    SummarizeConcat(DirectOf(direct, t.id), Directs(direct, KeysOfAll(t.subs)));
    DirectsConcat(direct, [t.id], KeysOfAll(t.subs));
    assert Directs(direct, [t.id]) == DirectOf(direct, t.id) + [];
  }

  lemma {:induction false} RollUpsAreFlat(ts: seq<Tree>, direct: map<string, GitStatus>)
    ensures Summarize(RollUps(ts, direct)) == Summarize(Directs(direct, KeysOfAll(ts)))
    decreases ts
  {
    if ts != [] {
      hide Summarize, DirectOf, AsList;
      RollUpIsFlat(ts[0], direct);
      RollUpsAreFlat(ts[1..], direct);
      SummarizeList(RollUp(ts[0], direct));
      SummarizeConcat(AsList(RollUp(ts[0], direct)), RollUps(ts[1..], direct));
      SummarizeConcat(Directs(direct, Keys(ts[0])), Directs(direct, KeysOfAll(ts[1..])));
      DirectsConcat(direct, Keys(ts[0]), KeysOfAll(ts[1..]));
    }
  }

  /** The statuses that a visit of t records. */
  function Recorded(t: Tree, direct: map<string, GitStatus>): map<string, GitStatus> {
    RecordedAll(t.subs, direct) + match RollUp(t, direct) case Some(s) => map[t.id := s] case None => map[]
  }

  function RecordedAll(ts: seq<Tree>, direct: map<string, GitStatus>): map<string, GitStatus> {
    if ts == [] then map[] else Recorded(ts[0], direct) + RecordedAll(ts[1..], direct)
  }

  /** The grouped models and the pointers behind them describe the same forest. */
  ghost predicate Matches(childrenMap: map<string, seq<Model>>, ps: Parents, kids: map<string, seq<string>>) {
    && Linked(ps, kids)
    && (forall i, c :: i in kids && c in kids[i] ==> c in ps)
    && (forall id :: id in ps ==> Kids(kids, id) == IdsOf(Get(childrenMap, id)))
  }

  class GitRollUp {
    const childrenMap: map<string, seq<Model>>
    const direct: map<string, GitStatus>
    var statusByModelId: map<string, GitStatus>

    constructor (childrenMap: map<string, seq<Model>>, direct: map<string, GitStatus>)
      ensures this.childrenMap == childrenMap && this.direct == direct && statusByModelId == map[]
    {
      this.childrenMap, this.direct, statusByModelId := childrenMap, direct, map[];
    }

    method Visit(
      id: string, ghost ps: Parents, ghost kids: map<string, seq<string>>, ghost seen: set<string>, ghost d: nat)
      returns (status: Option<GitStatus>)
      requires Matches(childrenMap, ps, kids) && id in ps && RootedAt(ps, id, d) && Shallower(ps, seen, d)
      modifies this
      ensures status == RollUp(GrowFrom(ps, kids, id, seen), direct)
      ensures statusByModelId == old(statusByModelId) + Recorded(GrowFrom(ps, kids, id, seen), direct)
      decreases |ps.Keys - seen|
    {
      hide Matches, RootedAt, Shallower, Linked, Up, Summarize, Recorded, RecordedAll, RollUp, RollUps, GrowFrom,
           GrowAllFrom,
        DirectOf, Kids, IdsOf, Get, Distinct, PartialRollUps, PartialRecord, AsList;
      EnterNode(childrenMap, ps, kids, id, seen, d);
      EnterVisit(childrenMap, ps, kids, id, seen, direct);
      ghost var below := seen + {id};
      var statuses := DirectOf(direct, id);
      ghost var own := statuses;
      var children := Get(childrenMap, id);
      ghost var ids, before := Kids(kids, id), statusByModelId;
      assert |ids| == |children|;
      PartialEnds(ps, kids, ids, below, direct);
      for k := 0 to |children|
        invariant statuses == own + PartialRollUps(ps, kids, ids, k, below, direct)
        invariant statusByModelId == before + PartialRecord(ps, kids, ids, k, below, direct)
      {
        IdAt(children, k);
        var childStatus := Visit(children[k].id, ps, kids, below, d + 1);
        PartialPush(ps, kids, ids, k, below, direct);
        UnionAssociates(before, PartialRecord(ps, kids, ids, k, below, direct),
                        Recorded(GrowFrom(ps, kids, ids[k], below), direct));
        AppendAssociates(own, PartialRollUps(ps, kids, ids, k, below, direct), childStatus);
        if childStatus.Some? { statuses := statuses + [childStatus.value]; }
      }
      UnionOne(before, PartialRecord(ps, kids, ids, |ids|, below, direct), id);
      status := Summarize(statuses);
      if status.Some? {
        statusByModelId := statusByModelId[id := status.value];
      }
    }
  }

  lemma UnionAssociates(a: map<string, GitStatus>, b: map<string, GitStatus>, c: map<string, GitStatus>)
    ensures a + b + c == a + (b + c)
  {
  }

  lemma AppendAssociates(a: seq<GitStatus>, b: seq<GitStatus>, s: Option<GitStatus>)
    ensures a + (b + AsList(s)) == if s.Some? then a + b + [s.value] else a + b
  {
    if s.None? { assert b + [] == b; } else { assert a + (b + [s.value]) == a + b + [s.value]; }
  }

  lemma UnionOne(a: map<string, GitStatus>, b: map<string, GitStatus>, id: string)
    ensures forall s :: (a + b)[id := s] == a + (b + map[id := s])
    ensures a + b == a + (b + map[])
  {
    forall s ensures (a + b)[id := s] == a + (b + map[id := s]) { assert (a + b)[id := s] == a + (b + map[id := s]); }
  }

  /** Entering a node on the way down: it is new, and its children are one step deeper. */
  lemma EnterNode(
    childrenMap: map<string, seq<Model>>, ps: Parents, kids: map<string, seq<string>>, id: string, seen: set<string>,
    d: nat)
    requires Matches(childrenMap, ps, kids) && id in ps && RootedAt(ps, id, d) && Shallower(ps, seen, d)
    ensures id !in seen && Shallower(ps, seen + {id}, d + 1)
    ensures Kids(kids, id) == IdsOf(Get(childrenMap, id)) && Distinct(Kids(kids, id))
    ensures forall c :: c in Kids(kids, id) ==> c in ps && RootedAt(ps, c, d + 1)
    ensures forall c :: c in Kids(kids, id) <==> Up(ps, c) == Some(id)
    ensures |ps.Keys - (seen + {id})| < |ps.Keys - seen|
  {
    OneDeeper(ps, id, seen, d);
    ChildrenDepth(ps, kids, id, d);
    assert ps.Keys - (seen + {id}) == (ps.Keys - seen) - {id};
  }

  lemma IdAt(list: seq<Model>, k: nat)
    requires k < |list|
    ensures IdsOf(list)[k] == list[k].id && list[k].id in IdsOf(list)
  {
    assert IdsOf(list)[k] in IdsOf(list);
  }

  /** The tree beneath id; nothing for lists that name unknown ids. */
  ghost function GrowFrom(ps: Parents, kids: map<string, seq<string>>, id: string, seen: set<string>): Tree {
    if id in ps && forall i, c :: i in kids && c in kids[i] ==> c in ps then Grow(ps, kids, id, seen) else Tree(id, [])
  }

  ghost function GrowAllFrom(
    ps: Parents, kids: map<string, seq<string>>, ids: seq<string>, seen: set<string>): seq<Tree>
  {
    seq(|ids|, k requires 0 <= k < |ids| => GrowFrom(ps, kids, ids[k], seen))
  }

  lemma {:induction false} GrowAllIsEach(
    ps: Parents, kids: map<string, seq<string>>, ids: seq<string>, seen: set<string>)
    requires forall c :: c in ids ==> c in ps
    requires forall i, c :: i in kids && c in kids[i] ==> c in ps
    ensures GrowAll(ps, kids, ids, seen) == GrowAllFrom(ps, kids, ids, seen)
    decreases |ids|
  {
    if ids != [] {
      hide Grow;
      GrowAllIsEach(ps, kids, ids[1..], seen);
      assert GrowAllFrom(ps, kids, ids, seen) ==
             [GrowFrom(ps, kids, ids[0], seen)] + GrowAllFrom(ps, kids, ids[1..], seen);
    }
  }

  lemma {:induction false} EnterVisit(
    childrenMap: map<string, seq<Model>>, ps: Parents, kids: map<string, seq<string>>, id: string, seen: set<string>,
    direct: map<string, GitStatus>)
    requires Matches(childrenMap, ps, kids) && id in ps && id !in seen
    ensures var t, subs := GrowFrom(ps, kids, id, seen), GrowAllFrom(ps, kids, Kids(kids, id), seen + {id});
            && RollUp(t, direct) == Summarize(DirectOf(direct, id) + RollUps(subs, direct))
            && Recorded(t, direct) ==
               RecordedAll(subs, direct) + match RollUp(t, direct) case Some(s) => map[id := s] case None => map[]
  {
    hide Summarize, DirectOf;
    GrowFromUnfold(childrenMap, ps, kids, id, seen);
  }

  lemma GrowFromUnfold(
    childrenMap: map<string, seq<Model>>, ps: Parents, kids: map<string, seq<string>>, id: string, seen: set<string>)
    requires Matches(childrenMap, ps, kids) && id in ps && id !in seen
    ensures GrowFrom(ps, kids, id, seen) == Tree(id, GrowAllFrom(ps, kids, Kids(kids, id), seen + {id}))
  {
    assert ps.Keys - (seen + {id}) == (ps.Keys - seen) - {id};
    GrowAllIsEach(ps, kids, Kids(kids, id), seen + {id});
  }

  /** The statuses and the record after k children. */
  ghost function PartialRollUps(
    ps: Parents, kids: map<string, seq<string>>, ids: seq<string>, k: nat, seen: set<string>,
    direct: map<string, GitStatus>)
    : seq<GitStatus>
    requires k <= |ids|
  {
    RollUps(GrowAllFrom(ps, kids, ids[..k], seen), direct)
  }

  ghost function PartialRecord(
    ps: Parents, kids: map<string, seq<string>>, ids: seq<string>, k: nat, seen: set<string>,
    direct: map<string, GitStatus>)
    : map<string, GitStatus>
    requires k <= |ids|
  {
    RecordedAll(GrowAllFrom(ps, kids, ids[..k], seen), direct)
  }

  lemma PartialEnds(
    ps: Parents, kids: map<string, seq<string>>, ids: seq<string>, seen: set<string>, direct: map<string, GitStatus>)
    ensures PartialRollUps(ps, kids, ids, 0, seen, direct) == [] &&
            PartialRecord(ps, kids, ids, 0, seen, direct) == map[]
    ensures PartialRollUps(ps, kids, ids, |ids|, seen, direct) == RollUps(GrowAllFrom(ps, kids, ids, seen), direct)
    ensures PartialRecord(ps, kids, ids, |ids|, seen, direct) == RecordedAll(GrowAllFrom(ps, kids, ids, seen), direct)
  {
    assert ids[..|ids|] == ids;
  }

  lemma PartialPush(
    ps: Parents, kids: map<string, seq<string>>, ids: seq<string>, k: nat, seen: set<string>,
    direct: map<string, GitStatus>)
    requires k < |ids|
    ensures var t := GrowFrom(ps, kids, ids[k], seen);
            && PartialRollUps(ps, kids, ids, k + 1, seen, direct) ==
               PartialRollUps(ps, kids, ids, k, seen, direct) + AsList(RollUp(t, direct))
            && PartialRecord(ps, kids, ids, k + 1, seen, direct) ==
               PartialRecord(ps, kids, ids, k, seen, direct) + Recorded(t, direct)
  {
    hide GrowFrom;
    var t := GrowFrom(ps, kids, ids[k], seen);
    assert GrowAllFrom(ps, kids, ids[..k + 1], seen) == GrowAllFrom(ps, kids, ids[..k], seen) + [t];
    RollUpsPush(GrowAllFrom(ps, kids, ids[..k], seen), t, direct);
    RecordedPush(GrowAllFrom(ps, kids, ids[..k], seen), t, direct);
  }

  lemma {:induction false} RollUpsPush(a: seq<Tree>, t: Tree, direct: map<string, GitStatus>)
    ensures RollUps(a + [t], direct) == RollUps(a, direct) + AsList(RollUp(t, direct))
  {
    hide RollUp, AsList;
    if a == [] {
      assert a + [t] == [t] && [t][1..] == [];
    } else {
      assert (a + [t])[0] == a[0] && (a + [t])[1..] == a[1..] + [t];
      RollUpsPush(a[1..], t, direct);
    }
  }

  lemma {:induction false} RecordedPush(a: seq<Tree>, t: Tree, direct: map<string, GitStatus>)
    ensures RecordedAll(a + [t], direct) == RecordedAll(a, direct) + Recorded(t, direct)
  {
    hide Recorded;
    if a == [] {
      assert a + [t] == [t] && [t][1..] == [];
    } else {
      assert (a + [t])[0] == a[0] && (a + [t])[1..] == a[1..] + [t];
      RecordedPush(a[1..], t, direct);
      UnionAssociates(Recorded(a[0], direct), RecordedAll(a[1..], direct), Recorded(t, direct));
    }
  }

  // ---------------------------------------------------------------- what the roll-up shows

  /** The non-current statuses at and beneath id. */
  ghost predicate Changed(ps: Parents, direct: map<string, GitStatus>, id: string, s: GitStatus) {
    exists x :: Below(ps, x, id) && x in direct && direct[x] == s && s != Current
  }

  /** shown is what the user should see for id: nothing without changes beneath it, a status all
      changes agree on, and "modified" for a mix. */
  ghost predicate FlatStatus(ps: Parents, direct: map<string, GitStatus>, id: string, shown: Option<GitStatus>) {
    && (shown.None? <==> forall s :: !Changed(ps, direct, id, s))
    && (shown.Some? ==>
          (Changed(ps, direct, id, shown.value) && forall s :: Changed(ps, direct, id, s) ==> s == shown.value) ||
          (shown.value == Modified &&
           exists s, s' :: s != s' && Changed(ps, direct, id, s) && Changed(ps, direct, id, s')))
  }

  lemma {:induction false} DirectsMember(direct: map<string, GitStatus>, ids: seq<string>, s: GitStatus)
    ensures s in Directs(direct, ids) <==> exists x :: x in ids && x in direct && direct[x] == s && s != Current
  {
    if ids != [] {
      DirectsMember(direct, ids[1..], s);
      assert ids == [ids[0]] + ids[1..];
      if x :| x in ids[1..] && x in direct && direct[x] == s && s != Current { assert x in ids; }
    }
  }

  lemma SummarySpelled(statuses: seq<GitStatus>)
    ensures Summarize(statuses).None? <==> forall s :: s !in statuses
    ensures Summarize(statuses).Some? ==>
              (Summarize(statuses).value in statuses && forall s :: s in statuses ==> s == Summarize(statuses).value) ||
              (Summarize(statuses) == Some(Modified) && exists s, s' :: s != s' && s in statuses && s' in statuses)
  {
    if statuses != [] { assert statuses[0] in statuses; }
  }

  lemma RollUpOfGrown(
    childrenMap: map<string, seq<Model>>, ps: Parents, kids: map<string, seq<string>>, direct: map<string, GitStatus>,
    id: string, seen: set<string>, d: nat)
    requires Matches(childrenMap, ps, kids) && RootedAt(ps, id, d) && Shallower(ps, seen, d) && id in ps
    ensures FlatStatus(ps, direct, id, RollUp(GrowFrom(ps, kids, id, seen), direct))
  {
    hide Summarize, RollUp, Keys, Below, Linked, Grow, RootedAt, Directs;
    var t := Grow(ps, kids, id, seen);
    GrowHoldsSubtree(ps, kids, id, seen, d);
    RollUpIsFlat(t, direct);
    var statuses := Directs(direct, Keys(t));
    SummarySpelled(statuses);
    forall s
      ensures s in statuses <==> Changed(ps, direct, id, s)
    {
      DirectsMember(direct, Keys(t), s);
    }
  }

  /** What is recorded for x, if anything. */
  function Entry(record: map<string, GitStatus>, x: string): Option<GitStatus> {
    if x in record then Some(record[x]) else None
  }

  /** A visit of id records exactly the flat statuses of what lies beneath it. */
  lemma {:induction false} RecordedIsFlat(
    childrenMap: map<string, seq<Model>>, ps: Parents, kids: map<string, seq<string>>, direct: map<string, GitStatus>,
    id: string, seen: set<string>, d: nat, x: string)
    requires Matches(childrenMap, ps, kids) && id in ps && RootedAt(ps, id, d) && Shallower(ps, seen, d)
    ensures var record := Recorded(GrowFrom(ps, kids, id, seen), direct);
            if Below(ps, x, id) then FlatStatus(ps, direct, x, Entry(record, x)) else x !in record
    decreases |ps.Keys - seen|, 1
  {
    hide Matches, Shallower, RootedAt, RollUp, GrowFrom, GrowAllFrom, FlatStatus, Below, Recorded, RecordedAll, Kids,
         Up, Distinct,
      Get, Entry, IdsOf;
    EnterNode(childrenMap, ps, kids, id, seen, d);
    EnterVisit(childrenMap, ps, kids, id, seen, direct);
    GrowFromUnfold(childrenMap, ps, kids, id, seen);
    RollUpOfGrown(childrenMap, ps, kids, direct, id, seen, d);
    var ids := Kids(kids, id);
    RecordedAllIsFlat(childrenMap, ps, kids, direct, ids, seen + {id}, d + 1, x, Some(id));
    assert Rooted(ps, id);
    BelowByChild(ps, x, id, ids);
    BelowItself(ps, id);
    if x == id {
      forall c | c in ids ensures !Below(ps, id, c) { NotBelowChild(ps, id, d, c); }
    }
    var rest := RecordedAll(GrowAllFrom(ps, kids, ids, seen + {id}), direct);
    TopEntry(rest, id, RollUp(GrowFrom(ps, kids, id, seen), direct), x);
    EntryNone(rest, x);
    EntryNone(Recorded(GrowFrom(ps, kids, id, seen), direct), x);
  }

  lemma EntryNone(record: map<string, GitStatus>, x: string)
    ensures Entry(record, x).None? <==> x !in record
  {
  }

  lemma BelowItself(ps: Parents, id: string)
    ensures Below(ps, id, id)
  {
  }

  lemma TopEntry(rest: map<string, GitStatus>, id: string, own: Option<GitStatus>, x: string)
    ensures var record := rest + match own case Some(s) => map[id := s] case None => map[];
            Entry(record, x) == if x == id && own.Some? then own else Entry(rest, x)
  {
  }

  lemma {:induction false} RecordedAllIsFlat(
    childrenMap: map<string, seq<Model>>, ps: Parents, kids: map<string, seq<string>>, direct: map<string, GitStatus>,
    ids: seq<string>, seen: set<string>, d: nat, x: string, up: Option<string>)
    requires Matches(childrenMap, ps, kids) && Distinct(ids) && Shallower(ps, seen, d)
    requires forall c :: c in ids ==> c in ps && RootedAt(ps, c, d) && Up(ps, c) == up
    ensures var record := RecordedAll(GrowAllFrom(ps, kids, ids, seen), direct);
            if exists c :: c in ids && Below(ps, x, c) then FlatStatus(ps, direct, x, Entry(record, x))
            else x !in record
    decreases |ps.Keys - seen|, 2, |ids|
  {
    hide Shallower, GrowFrom, FlatStatus, Below, Recorded, Matches, RootedAt, Up;
    if ids != [] {
      var first, rest := GrowFrom(ps, kids, ids[0], seen), GrowAllFrom(ps, kids, ids[1..], seen);
      RecordedIsFlat(childrenMap, ps, kids, direct, ids[0], seen, d, x);
      RecordedAllIsFlat(childrenMap, ps, kids, direct, ids[1..], seen, d, x, up);
      assert GrowAllFrom(ps, kids, ids, seen) == [first] + rest;
      RecordedCons(first, rest, direct);
      if Below(ps, x, ids[0]) {
        assert Rooted(ps, ids[0]);
        BelowRooted(ps, x, ids[0]);
        forall c | c in ids[1..] ensures !Below(ps, x, c) { if Below(ps, x, c) { SiblingsDisjoint(ps, x, ids[0], c); } }
      }
      assert forall c :: c in ids <==> c == ids[0] || c in ids[1..] by { assert ids == [ids[0]] + ids[1..]; }
    }
  }

  lemma RecordedCons(t: Tree, ts: seq<Tree>, direct: map<string, GitStatus>)
    ensures RecordedAll([t] + ts, direct) == Recorded(t, direct) + RecordedAll(ts, direct)
  {
    assert ([t] + ts)[1..] == ts;
  }

  /** A status other than current, at id or at what hangs beneath it. */
  ghost predicate ChangedBeneath(
    models: seq<Model>, containers: set<string>, direct: map<string, GitStatus>, id: string, s: GitStatus)
  {
    s != Current && exists x :: HangsBelow(models, containers, x, id) && x in direct && direct[x] == s
  }

  /** FlatStatus, by the fields of the models. */
  ghost predicate Summed(
    models: seq<Model>, containers: set<string>, direct: map<string, GitStatus>, id: string, shown: Option<GitStatus>)
  {
    && (shown.None? <==> forall s :: !ChangedBeneath(models, containers, direct, id, s))
    && (shown.Some? ==>
          || (ChangedBeneath(models, containers, direct, id, shown.value) &&
              forall s :: ChangedBeneath(models, containers, direct, id, s) ==> s == shown.value)
          || (shown.value == Modified &&
              exists s, s' :: s != s' && ChangedBeneath(models, containers, direct, id, s) &&
                              ChangedBeneath(models, containers, direct, id, s')))
  }

  lemma FlatIsSummed(
    models: seq<Model>, workspace: string, containers: set<string>, direct: map<string, GitStatus>, id: string,
    shown: Option<GitStatus>)
    requires Setting(models, workspace, containers) && Rooted(ParentsIn(models, workspace, containers), id)
    requires FlatStatus(ParentsIn(models, workspace, containers), direct, id, shown)
    ensures Summed(models, containers, direct, id, shown)
  {
    hide ParentsIn, Setting, Below, HangsBelow, Rooted;
    var ps := ParentsIn(models, workspace, containers);
    forall s
      ensures Changed(ps, direct, id, s) <==> ChangedBeneath(models, containers, direct, id, s)
    {
      if x :| Below(ps, x, id) && x in direct && direct[x] == s {
        BelowIffClimbs(models, workspace, containers, x, id);
      }
      if x :| HangsBelow(models, containers, x, id) && x in direct && direct[x] == s {
        BelowIffClimbs(models, workspace, containers, x, id);
      }
    }
  }

  /** The statuses of the sidebar: each model beneath the workspace shows the flat status of all it
      contains, and nothing else is recorded, cyclic folders included. */
  method SidebarGitStatus(models: seq<Model>, workspace: string, direct: map<string, GitStatus>)
    returns (statusByModelId: map<string, GitStatus>)
    requires UniqueIds(models, workspace)
    ensures var ps := ParentsIn(models, workspace, ModelIds(models) + {workspace});
            forall x ::
              if Below(ps, x, workspace) then FlatStatus(ps, direct, x, Entry(statusByModelId, x))
              else x !in statusByModelId
    ensures var all := ModelIds(models) + {workspace};
            forall x ::
              if HangsBelow(models, all, x, workspace)
              then Summed(models, all, direct, x, Entry(statusByModelId, x))
              else x !in statusByModelId
  {
    hide FlatStatus, Summed, HangsBelow, Entry, UniqueIds, Below, Recorded, GrowFrom, Linked, RootedAt, Grouped,
         KidsIn, ParentsIn, Kids;
    ghost var all := ModelIds(models) + {workspace};
    ghost var ps, kids := ParentsIn(models, workspace, all), KidsIn(models, all, false);
    var childrenMap := GroupByParent(models);
    GroupedMatches(models, workspace);
    NothingShallow(ps);
    var walk := new GitRollUp(childrenMap, direct);
    var status := walk.Visit(workspace, ps, kids, {}, 0);
    statusByModelId := walk.statusByModelId;
    assert statusByModelId == Recorded(GrowFrom(ps, kids, workspace, {}), direct);
    forall x
      ensures if Below(ps, x, workspace) then FlatStatus(ps, direct, x, Entry(statusByModelId, x))
              else x !in statusByModelId
    {
      RecordedIsFlat(childrenMap, ps, kids, direct, workspace, {}, 0, x);
    }
    SettingOfAll(models, workspace);
    assert Rooted(ps, workspace);
    forall x
      ensures if HangsBelow(models, all, x, workspace)
              then Summed(models, all, direct, x, Entry(statusByModelId, x))
              else x !in statusByModelId
    {
      BelowIffClimbs(models, workspace, all, x, workspace);
      if Below(ps, x, workspace) {
        BelowRooted(ps, x, workspace);
        FlatIsSummed(models, workspace, all, direct, x, Entry(statusByModelId, x));
      }
    }
  }

  lemma SettingOfAll(models: seq<Model>, workspace: string)
    requires UniqueIds(models, workspace)
    ensures Setting(models, workspace, ModelIds(models) + {workspace})
  {
  }

  lemma GroupedMatches(models: seq<Model>, workspace: string)
    requires UniqueIds(models, workspace)
    ensures var all := ModelIds(models) + {workspace};
            var ps := ParentsIn(models, workspace, all);
            Matches(Grouped(models), ps, KidsIn(models, all, false)) && workspace in ps && RootedAt(ps, workspace, 0)
  {
    hide Grouped, KidsIn, RootedAt, Linked;
    var all := ModelIds(models) + {workspace};
    var ps, kids := ParentsIn(models, workspace, all), KidsIn(models, all, false);
    LinkedModels(models, workspace, all, false);
    ParentsSpelled(models, workspace, all);
    forall id | id in ps
      ensures Kids(kids, id) == IdsOf(Get(Grouped(models), id))
    {
      KidsSpelled(models, workspace, all, false, id);
    }
  }
}
