/** Dragging in the sidebar: the numbers written so that sorting gives the order that was dropped. */
module SidebarDrag {
  import opened Forest
  import opened Wrappers
  import opened SidebarOrder

  // ---------------------------------------------------------------- writing the new numbers

  function Patched(m: Model, priority: real, folderId: Option<string>): Model {
    m.(sortPriority := priority, folderId := folderId)
  }

  /** The models after a list of writes. */
  function Written(models: map<string, Model>, writes: seq<Model>): map<string, Model> {
    if writes == [] then models
    else Written(models, writes[..|writes| - 1])[writes[|writes| - 1].id := writes[|writes| - 1]]
  }

  predicate UpdatesAll(children: seq<Model>, insertAt: nat)
    requires insertAt <= |children|
  {
    Upper(children, insertAt) - Lower(children, insertAt) < 1.0
  }

  /** prev?.sortPriority ?? 0 */
  function Lower(children: seq<Model>, insertAt: nat): real
    requires insertAt <= |children|
  {
    if insertAt > 0 then children[insertAt - 1].sortPriority else 0.0
  }

  /** next?.sortPriority ?? 0 */
  function Upper(children: seq<Model>, insertAt: nat): real
    requires insertAt <= |children|
  {
    if insertAt < |children| then children[insertAt].sortPriority else 0.0
  }

  function Renumbered(list: seq<Model>, folderId: Option<string>): (r: seq<Model>)
    ensures |r| == |list| && forall k :: 0 <= k < |list| ==> r[k] == Patched(list[k], (k * 1000) as real, folderId)
  {
    seq(|list|, k requires 0 <= k < |list| => Patched(list[k], (k * 1000) as real, folderId))
  }

  /** k steps up from the lower end of the gap. */
  function StepUp(lower: real, increment: real, k: nat): real {
    lower + k as real * increment
  }

  function Spread(items: seq<Model>, lower: real, increment: real, folderId: Option<string>): (r: seq<Model>)
    ensures |r| == |items| &&
            forall k :: 0 <= k < |items| ==> r[k] == Patched(items[k], StepUp(lower, increment, k + 1), folderId)
  {
    hide StepUp;
    seq(|items|, k requires 0 <= k < |items| => Patched(items[k], StepUp(lower, increment, k + 1), folderId))
  }

  function Increment(items: seq<Model>, children: seq<Model>, insertAt: nat): real
    requires insertAt <= |children|
  {
    (Upper(children, insertAt) - Lower(children, insertAt)) / (|items| + 2) as real
  }

  /** The children as they were dropped. */
  function Dropped(items: seq<Model>, children: seq<Model>, insertAt: nat): seq<Model>
    requires insertAt <= |children|
  {
    children[..insertAt] + items + children[insertAt..]
  }

  class ModelStore {
    var models: map<string, Model>

    method PatchModel(m: Model, priority: real, folderId: Option<string>)
      modifies this
      ensures models == old(models)[m.id := Patched(m, priority, folderId)]
    {
      models := models[m.id := Patched(m, priority, folderId)];
    }

    method HandleDragEnd(items: seq<Model>, folderId: Option<string>, children: seq<Model>, insertAt: nat)
      requires insertAt <= |children|
      modifies this
      ensures models == Written(old(models),
                                if UpdatesAll(children, insertAt)
                                then Renumbered(Dropped(items, children, insertAt), folderId)
                                else var increment := Increment(items, children, insertAt);
                                     Spread(items, Lower(children, insertAt), increment, folderId))
    {
      hide Written, Renumbered, Spread, StepUp;
      var beforePriority := if insertAt > 0 then children[insertAt - 1].sortPriority else 0.0;
      var afterPriority := if insertAt < |children| then children[insertAt].sortPriority else 0.0;
      NothingWritten(models);
      if afterPriority - beforePriority < 1.0 {
        var all := children[..insertAt] + items + children[insertAt..];
        ghost var writes := Renumbered(all, folderId);
        for i := 0 to |all|
          invariant models == Written(old(models), writes[..i])
        {
          PatchModel(all[i], (i * 1000) as real, folderId);
          WrittenPush(old(models), writes, i);
        }
        assert writes[..|all|] == writes;
      } else {
        var range := afterPriority - beforePriority;
        var increment := range / (|items| + 2) as real;
        ghost var writes := Spread(items, beforePriority, increment, folderId);
        for i := 0 to |items|
          invariant models == Written(old(models), writes[..i])
        {
          PatchModel(items[i], StepUp(beforePriority, increment, i + 1), folderId);
          WrittenPush(old(models), writes, i);
        }
        assert writes[..|items|] == writes;
      }
    }
  }

  lemma NothingWritten(models: map<string, Model>)
    ensures Written(models, []) == models
  {
  }

  lemma WrittenPush(models: map<string, Model>, writes: seq<Model>, k: nat)
    requires k < |writes|
    ensures Written(models, writes[..k + 1]) == Written(models, writes[..k])[writes[k].id := writes[k]]
  {
    assert writes[..k + 1][..k] == writes[..k];
  }

  // ---------------------------------------------------------------- the order that results

  ghost predicate Keyed(models: map<string, Model>) {
    forall id :: id in models ==> models[id].id == id
  }

  /** children are the sorted contents of the folder without the dragged items. */
  ghost predicate DragState(
    models: map<string, Model>, items: seq<Model>, folderId: Option<string>, children: seq<Model>)
  {
    && Keyed(models) && Sorted(children) && DistinctIds(children + items)
    && (forall m :: m in children || m in items ==> m.id in models && models[m.id] == m)
    && (forall c :: c in children ==> c.folderId == folderId)
    && (forall id :: id in models && models[id].folderId == folderId ==> models[id] in children || models[id] in items)
  }

  /** The list that the drop should show, with the numbers that were written. */
  function Shown(items: seq<Model>, folderId: Option<string>, children: seq<Model>, insertAt: nat): seq<Model>
    requires insertAt <= |children|
  {
    if UpdatesAll(children, insertAt) then Renumbered(Dropped(items, children, insertAt), folderId)
    else
      children[..insertAt] +
      Spread(items, Lower(children, insertAt), Increment(items, children, insertAt), folderId) +
      children[insertAt..]
  }

  lemma ShownIds(items: seq<Model>, folderId: Option<string>, children: seq<Model>, insertAt: nat)
    requires insertAt <= |children|
    ensures IdsOf(Shown(items, folderId, children, insertAt)) == IdsOf(Dropped(items, children, insertAt))
  {
  }

  lemma RenumberedSorted(list: seq<Model>, folderId: Option<string>)
    ensures Sorted(Renumbered(list, folderId))
  {
  }

  /** Equal steps up from the lower neighbour stay below the upper one. */
  lemma StepsStayBelow(items: seq<Model>, children: seq<Model>, insertAt: nat, j: nat, k: nat)
    requires insertAt <= |children| && !UpdatesAll(children, insertAt) && j < k <= |items| + 1
    ensures var lower, upper := Lower(children, insertAt), Upper(children, insertAt);
            var increment := Increment(items, children, insertAt);
            && StepUp(lower, increment, j) < StepUp(lower, increment, k) < upper
            && lower < StepUp(lower, increment, k)
  {
    hide Lower, Upper;
    var lower, upper := Lower(children, insertAt), Upper(children, insertAt);
    var d := (|items| + 2) as real;
    var increment := Increment(items, children, insertAt);
    assert increment * d == upper - lower && increment > 0.0;
    assert (k as real - j as real) * increment > 0.0;
    assert (d - k as real) * increment > 0.0;
    assert k as real * increment > 0.0;
  }

  /** Where each shown model stands against the gap. */
  lemma {:induction false} PriorityAt(
    items: seq<Model>, folderId: Option<string>, children: seq<Model>, insertAt: nat, k: nat)
    requires insertAt <= |children| && Sorted(children) && !UpdatesAll(children, insertAt)
    requires k < |items| + |children|
    ensures var lower, upper := Lower(children, insertAt), Upper(children, insertAt);
            var shown := Shown(items, folderId, children, insertAt);
            && |shown| == |items| + |children|
            && (k < insertAt ==> shown[k] == children[k] && shown[k].sortPriority <= lower)
            && (insertAt <= k < insertAt + |items| ==>
                  lower < shown[k].sortPriority < upper &&
                  shown[k].sortPriority == StepUp(lower, Increment(items, children, insertAt), k - insertAt + 1))
            && (insertAt + |items| <= k ==> shown[k] == children[k - |items|] && upper <= shown[k].sortPriority)
  {
    hide Increment, UpdatesAll, Lower, Upper, Sorted, Spread, StepUp;
    var shown := Shown(items, folderId, children, insertAt);
    ShownSpelled(items, folderId, children, insertAt);
    if insertAt <= k < insertAt + |items| {
      StepsStayBelow(items, children, insertAt, k - insertAt, k - insertAt + 1);
    } else {
      ChildPriority(children, insertAt, if k < insertAt then k else k - |items|);
    }
  }

  lemma ShownSpelled(items: seq<Model>, folderId: Option<string>, children: seq<Model>, insertAt: nat)
    requires insertAt <= |children| && !UpdatesAll(children, insertAt)
    ensures var spread := Spread(items, Lower(children, insertAt), Increment(items, children, insertAt), folderId);
            && Shown(items, folderId, children, insertAt) == children[..insertAt] + spread + children[insertAt..]
            && |spread| == |items|
  {
  }

  lemma ChildPriority(children: seq<Model>, insertAt: nat, k: nat)
    requires insertAt <= |children| && Sorted(children) && k < |children|
    ensures k < insertAt ==> children[k].sortPriority <= Lower(children, insertAt)
    ensures insertAt <= k ==> Upper(children, insertAt) <= children[k].sortPriority
  {
    if k < insertAt - 1 { assert Before(children[k], children[insertAt - 1]); }
    if k > insertAt { assert Before(children[insertAt], children[k]); }
  }

  /** Of two models shown in the gap, the earlier has the lower number. */
  lemma {:induction false} GapOrder(
    items: seq<Model>, folderId: Option<string>, children: seq<Model>, insertAt: nat, j: nat, k: nat)
    requires insertAt <= |children| && !UpdatesAll(children, insertAt) && insertAt <= j < k < insertAt + |items|
    ensures var shown := Shown(items, folderId, children, insertAt);
            k < |shown| && shown[j].sortPriority < shown[k].sortPriority
  {
    hide Increment, UpdatesAll, Lower, Upper, Spread, StepUp;
    ShownSpelled(items, folderId, children, insertAt);
    var lower, increment := Lower(children, insertAt), Increment(items, children, insertAt);
    var spread := Spread(items, lower, increment, folderId);
    var shown := Shown(items, folderId, children, insertAt);
    assert shown[j] == spread[j - insertAt] && shown[k] == spread[k - insertAt];
    assert shown[j].sortPriority == StepUp(lower, increment, j - insertAt + 1);
    assert shown[k].sortPriority == StepUp(lower, increment, k - insertAt + 1);
    StepsStayBelow(items, children, insertAt, j - insertAt + 1, k - insertAt + 1);
  }

  lemma {:induction false} SpreadSorted(
    items: seq<Model>, folderId: Option<string>, children: seq<Model>, insertAt: nat)
    requires insertAt <= |children| && Sorted(children) && !UpdatesAll(children, insertAt)
    ensures Sorted(Shown(items, folderId, children, insertAt))
  {
    var n, shown := |items|, Shown(items, folderId, children, insertAt);
    ShownSpelled(items, folderId, children, insertAt);
    assert Lower(children, insertAt) < Upper(children, insertAt);
    hide Shown, Increment, Lower, Upper, UpdatesAll, Before, Spread;
    forall j, k | 0 <= j < k < |shown|
      ensures Before(shown[j], shown[k])
    {
      PriorityAt(items, folderId, children, insertAt, j);
      PriorityAt(items, folderId, children, insertAt, k);
      if j < insertAt && k < insertAt {
        assert Before(children[j], children[k]);
      } else if insertAt + n <= j {
        assert Before(children[j - n], children[k - n]);
      } else {
        if insertAt <= j && k < insertAt + n {
          GapOrder(items, folderId, children, insertAt, j, k);
        } else {
          AcrossTheGap(
            shown[j].sortPriority, shown[k].sortPriority, Lower(children, insertAt), Upper(children, insertAt));
        }
        LowerNumberFirst(shown[j], shown[k]);
      }
    }
  }

  lemma AcrossTheGap(a: real, b: real, lower: real, upper: real)
    requires lower < upper
    requires (a <= lower && (lower < b || upper <= b)) || (a < upper && upper <= b)
    ensures a < b
  {
  }

  lemma LowerNumberFirst(a: Model, b: Model)
    requires a.sortPriority < b.sortPriority
    ensures Before(a, b)
  {
  }

  predicate Wrote(writes: seq<Model>, id: string) {
    exists w :: w in writes && w.id == id
  }

  lemma {:induction false} WrittenLookup(models: map<string, Model>, writes: seq<Model>)
    requires Keyed(models) && DistinctIds(writes)
    ensures Keyed(Written(models, writes))
    ensures forall w :: w in writes ==> w.id in Written(models, writes) && Written(models, writes)[w.id] == w
    ensures forall id :: id in Written(models, writes) && !Wrote(writes, id) ==>
              id in models && Written(models, writes)[id] == models[id]
    ensures forall id :: id in models ==> id in Written(models, writes)
    decreases |writes|
  {
    if writes != [] {
      var n := |writes| - 1;
      WrittenLookup(models, writes[..n]);
      LastWrite(writes);
      assert Written(models, writes) == Written(models, writes[..n])[writes[n].id := writes[n]];
      hide Written, Wrote, DistinctIds;
    }
  }

  lemma LastWrite(writes: seq<Model>)
    requires writes != [] && DistinctIds(writes)
    ensures var n := |writes| - 1;
            && DistinctIds(writes[..n])
            && (forall w :: w in writes <==> w in writes[..n] || w == writes[n])
            && (forall w :: w in writes[..n] ==> w.id != writes[n].id)
            && (forall id :: Wrote(writes, id) <==> Wrote(writes[..n], id) || id == writes[n].id)
  {
    var n := |writes| - 1;
    assert writes == writes[..n] + [writes[n]];
    assert writes[n] in writes;
    forall id
      ensures Wrote(writes, id) <==> Wrote(writes[..n], id) || id == writes[n].id
    {
      if Wrote(writes[..n], id) { var w :| w in writes[..n] && w.id == id; assert w in writes; }
    }
  }

  /** The models that handleDragEnd writes. */
  function Writes(items: seq<Model>, folderId: Option<string>, children: seq<Model>, insertAt: nat): seq<Model>
    requires insertAt <= |children|
  {
    if UpdatesAll(children, insertAt) then Renumbered(Dropped(items, children, insertAt), folderId)
    else Spread(items, Lower(children, insertAt), Increment(items, children, insertAt), folderId)
  }

  /** The model stored under an id, if there is one. */
  function Entry(models: map<string, Model>, id: string): Option<Model> {
    if id in models then Some(models[id]) else None
  }

  /** Every model of the list is stored with its number and in the folder, and nothing else changed. */
  ghost predicate Stored(
    models: map<string, Model>, after: map<string, Model>, list: seq<Model>, number: nat -> real,
    folderId: Option<string>)
  {
    && (forall k: nat :: k < |list| ==>
         Entry(after, list[k].id) == Some(list[k].(sortPriority := number(k), folderId := folderId)))
    && (forall id :: (forall m <- list :: m.id != id) ==> Entry(after, id) == Entry(models, id))
  }

  lemma WritesStored(
    models: map<string, Model>, list: seq<Model>, writes: seq<Model>, number: nat -> real, folderId: Option<string>)
    requires Keyed(models) && DistinctIds(list) && |writes| == |list|
    requires forall k: nat :: k < |list| ==> writes[k] == Patched(list[k], number(k), folderId)
    ensures Stored(models, Written(models, writes), list, number, folderId)
  {
    hide Written, Wrote, DistinctIds;
    WritesIds(list, writes, folderId);
    WrittenLookup(models, writes);
    var after := Written(models, writes);
    forall k: nat | k < |list|
      ensures Entry(after, list[k].id) == Some(list[k].(sortPriority := number(k), folderId := folderId))
    {
      assert writes[k] in writes;
    }
    forall id | forall m <- list :: m.id != id
      ensures Entry(after, id) == Entry(models, id)
    {
      assert !Wrote(writes, id);
    }
  }

  /** The numbers that a drop leaves: with less than one between the neighbours, every model of the
      new order is renumbered in steps of a thousand from zero; otherwise the dragged ones alone get
      equal steps of the gap. */
  lemma NumbersSpelled(
    models: map<string, Model>, items: seq<Model>, folderId: Option<string>, children: seq<Model>, insertAt: nat)
    requires insertAt <= |children| && Keyed(models) && DistinctIds(children + items)
    ensures var after := Written(models, Writes(items, folderId, children, insertAt));
            var before := if insertAt == 0 then 0.0 else children[insertAt - 1].sortPriority;
            var gap := (if insertAt == |children| then 0.0 else children[insertAt].sortPriority) - before;
            var step := gap / (|items| + 2) as real;
            if gap < 1.0
            then Stored(models, after, children[..insertAt] + items + children[insertAt..],
                        (k: nat) => 1000.0 * k as real, folderId)
            else Stored(models, after, items, (k: nat) => before + (k + 1) as real * step, folderId)
  {
    hide Written, DistinctIds, Stored;
    DroppedElements(items, children, insertAt);
    var before := if insertAt == 0 then 0.0 else children[insertAt - 1].sortPriority;
    var gap := (if insertAt == |children| then 0.0 else children[insertAt].sortPriority) - before;
    var step := gap / (|items| + 2) as real;
    if gap < 1.0 {
      var list := Dropped(items, children, insertAt);
      WritesStored(models, list, Renumbered(list, folderId), (k: nat) => 1000.0 * k as real, folderId);
    } else {
      WritesStored(models, items, Spread(items, before, step, folderId),
                   (k: nat) => before + (k + 1) as real * step, folderId);
    }
  }

  lemma DroppedElements(items: seq<Model>, children: seq<Model>, insertAt: nat)
    requires insertAt <= |children| && DistinctIds(children + items)
    ensures forall m :: m in Dropped(items, children, insertAt) <==> m in children || m in items
    ensures DistinctIds(Dropped(items, children, insertAt)) && DistinctIds(items)
  {
    assert children == children[..insertAt] + children[insertAt..];
    var n, all, dropped := |children|, children + items, Dropped(items, children, insertAt);
    forall j, k | 0 <= j < k < |dropped|
      ensures dropped[j].id != dropped[k].id
    {
      var j' := if j < insertAt then j else if j < insertAt + |items| then j - insertAt + n else j - |items|;
      var k' := if k < insertAt then k else if k < insertAt + |items| then k - insertAt + n else k - |items|;
      assert all[j'] == dropped[j] && all[k'] == dropped[k] && j' != k';
    }
    forall j, k | 0 <= j < k < |items|
      ensures items[j].id != items[k].id
    {
      assert all[n + j] == items[j] && all[n + k] == items[k];
    }
  }

  /** A list of writes made from a list of models writes their ids and no others. */
  lemma WritesIds(list: seq<Model>, writes: seq<Model>, folderId: Option<string>)
    requires |writes| == |list| && DistinctIds(list)
    requires forall k :: 0 <= k < |list| ==> writes[k] == Patched(list[k], writes[k].sortPriority, folderId)
    ensures DistinctIds(writes)
    ensures forall m :: m in list ==> Wrote(writes, m.id)
    ensures forall id :: Wrote(writes, id) ==> exists m :: m in list && m.id == id
    ensures forall w :: w in writes ==> w.folderId == folderId
  {
    forall m | m in list
      ensures Wrote(writes, m.id)
    {
      var k :| 0 <= k < |list| && list[k] == m;
      assert writes[k] in writes;
    }
    forall id | Wrote(writes, id)
      ensures exists m :: m in list && m.id == id
    {
      var w :| w in writes && w.id == id;
      var k :| 0 <= k < |writes| && writes[k] == w;
      assert list[k] in list;
    }
  }

  ghost predicate InFolder(models: map<string, Model>, folderId: Option<string>, m: Model) {
    m.id in models && models[m.id] == m && m.folderId == folderId
  }

  /** After the writes, the folder holds exactly the shown models. */
  lemma {:induction false} FolderAfterDrop(
    models: map<string, Model>, items: seq<Model>, folderId: Option<string>, children: seq<Model>, insertAt: nat,
    m: Model)
    requires insertAt <= |children| && DragState(models, items, folderId, children)
    ensures InFolder(Written(models, Writes(items, folderId, children, insertAt)), folderId, m) <==>
            m in Shown(items, folderId, children, insertAt)
  {
    hide Sorted, UpdatesAll, Increment, Lower, Upper, Written, Wrote, Renumbered, Spread;
    var list := if UpdatesAll(children, insertAt) then Dropped(items, children, insertAt) else items;
    var writes := Writes(items, folderId, children, insertAt);
    var after, shown := Written(models, writes), Shown(items, folderId, children, insertAt);
    DroppedElements(items, children, insertAt);
    WritesIds(list, writes, folderId);
    WrittenLookup(models, writes);
    assert forall x :: x in shown <==> x in writes || (!UpdatesAll(children, insertAt) && x in children) by {
      assert children == children[..insertAt] + children[insertAt..];
    }
    if !UpdatesAll(children, insertAt) && m in children && Wrote(writes, m.id) {
      var i :| i in items && i.id == m.id;
      ChildIsNotDragged(children, items, m, i);
    }
    if InFolder(after, folderId, m) && Wrote(writes, m.id) { WroteThis(writes, after, m); }
  }

  lemma ChildIsNotDragged(children: seq<Model>, items: seq<Model>, c: Model, i: Model)
    requires DistinctIds(children + items) && c in children && i in items
    ensures c.id != i.id
  {
    var j :| 0 <= j < |children| && children[j] == c;
    var k :| 0 <= k < |items| && items[k] == i;
    assert (children + items)[j] == c && (children + items)[|children| + k] == i;
  }

  lemma WroteThis(writes: seq<Model>, after: map<string, Model>, m: Model)
    requires Wrote(writes, m.id) && m.id in after && after[m.id] == m
    requires forall w :: w in writes ==> w.id in after && after[w.id] == w
    ensures m in writes
  {
    var w :| w in writes && w.id == m.id;
  }

  /** However the sidebar sorts the folder after a drop, the order is the one that was dropped: the
      children before the gap, the dragged items in their order, and the children after it. */
  lemma DropIsKept(
    models: map<string, Model>, items: seq<Model>, folderId: Option<string>, children: seq<Model>, insertAt: nat,
    listed: seq<Model>)
    requires insertAt <= |children| && DragState(models, items, folderId, children)
    requires Sorted(listed)
    requires forall m :: m in listed <==>
             InFolder(Written(models, Writes(items, folderId, children, insertAt)), folderId, m)
    ensures IdsOf(listed) == IdsOf(children[..insertAt]) + IdsOf(items) + IdsOf(children[insertAt..])
  {
    hide InFolder, Before, Shown, Writes, Written;
    var shown := Shown(items, folderId, children, insertAt);
    forall m ensures m in listed <==> m in shown { FolderAfterDrop(models, items, folderId, children, insertAt, m); }
    assert Sorted(shown) by { ShownSorted(items, folderId, children, insertAt); }
    SortedUnique(listed, shown);
    ShownIds(items, folderId, children, insertAt);
    assert IdsOf(Dropped(items, children, insertAt)) ==
           IdsOf(children[..insertAt]) + IdsOf(items) + IdsOf(children[insertAt..]);
  }

  lemma {:induction false} ShownSorted(items: seq<Model>, folderId: Option<string>, children: seq<Model>, insertAt: nat)
    requires insertAt <= |children| && Sorted(children)
    ensures Sorted(Shown(items, folderId, children, insertAt))
  {
    if UpdatesAll(children, insertAt) {
      RenumberedSorted(Dropped(items, children, insertAt), folderId);
    } else {
      SpreadSorted(items, folderId, children, insertAt);
    }
  }

  // ---------------------------------------------------------------- finding the gap

  /** The ids left when some are taken out. */
  function Without(s: seq<string>, out: set<string>): (r: seq<string>)
    ensures forall x :: x in r <==> x in s && x !in out
  {
    if s == [] then [] else (if s[0] in out then [] else [s[0]]) + Without(s[1..], out)
  }

  lemma {:induction false} WithoutConcat(a: seq<string>, b: seq<string>, out: set<string>)
    ensures Without(a + b, out) == Without(a, out) + Without(b, out)
  {
    if a == [] {
      assert a + b == b;
    } else {
      assert (a + b)[0] == a[0] && (a + b)[1..] == a[1..] + b;
      WithoutConcat(a[1..], b, out);
    }
  }

  lemma {:induction false} WithoutDistinct(s: seq<string>, out: set<string>)
    requires Distinct(s)
    ensures Distinct(Without(s, out))
  {
    if s != [] {
      WithoutDistinct(s[1..], out);
      assert s[0] !in s[1..];
    }
  }

  lemma {:induction false} WithoutAbsent(s: seq<string>, out: set<string>, x: string)
    requires x !in Without(s, out)
    ensures Without(s, out + {x}) == Without(s, out)
  {
    if s != [] { WithoutAbsent(s[1..], out, x); }
  }

  lemma WithoutCons(s: seq<string>, out: set<string>)
    requires s != []
    ensures Without(s, out) == (if s[0] in out then [] else [s[0]]) + Without(s[1..], out)
  {
  }

  lemma {:induction false} OneOut(s: seq<string>, out: set<string>, x: string, i: nat)
    requires Distinct(s)
    requires i < |Without(s, out)| && Without(s, out)[i] == x
    ensures Without(s, out + {x}) == Without(s, out)[..i] + Without(s, out)[i + 1..]
  {
    hide Without, Distinct;
    assert Without(s, out)[i] in Without(s, out);
    var head, tail := s[..1], s[1..];
    assert s == head + tail && head == [s[0]];
    DistinctPart(head, tail);
    Apart(head, tail, s[0]);
    WithoutCons(s, out);
    WithoutCons(s, out + {x});
    var rest := Without(tail, out);
    if s[0] in out {
      assert [] + rest == rest;
      OneOut(tail, out, x, i);
    } else if i == 0 {
      WithoutAbsent(tail, out, x);
      assert ([s[0]] + rest)[..0] == [] && ([s[0]] + rest)[1..] == rest && [] + rest == rest;
    } else {
      assert rest[i - 1] == x && x in rest;
      OneOut(tail, out, x, i - 1);
      SliceOut([s[0]], rest, i);
    }
  }

  lemma SliceOut(f: seq<string>, b: seq<string>, i: nat)
    requires i < |f + b|
    ensures (f + b)[..i] + (f + b)[i + 1..] ==
            if i < |f| then (f[..i] + f[i + 1..]) + b else f + (b[..i - |f|] + b[i - |f| + 1..])
  {
  }

  /** Distinct lists have nothing in common. */
  lemma Apart(f: seq<string>, b: seq<string>, x: string)
    requires Distinct(f + b) && x in f
    ensures x !in b
  {
    var j :| 0 <= j < |f| && f[j] == x;
    assert (f + b)[j] == x && forall k :: 0 <= k < |b| ==> (f + b)[|f| + k] == b[k];
  }

  /** Taking out one more id removes its one occurrence. */
  lemma WithoutOneMore(front: seq<string>, back: seq<string>, out: set<string>, x: string, i: nat)
    requires Distinct(front + back)
    requires var rest := Without(front, out) + Without(back, out); i < |rest| && rest[i] == x
    ensures var f, b := Without(front, out), Without(back, out);
            var rest := f + b;
            && rest[..i] + rest[i + 1..] == Without(front, out + {x}) + Without(back, out + {x})
            && |Without(front, out + {x})| == |f| - if i < |f| then 1 else 0
  {
    hide Without, Distinct;
    var f, b := Without(front, out), Without(back, out);
    WithoutConcat(front, back, out);
    WithoutDistinct(front + back, out);
    DistinctPart(front, back);
    SliceOut(f, b, i);
    if i < |f| {
      assert f[i] == x;
      Apart(f, b, x);
      WithoutAbsent(back, out, x);
      OneOut(front, out, x, i);
    } else {
      assert b[i - |f|] == x;
      if x in f { Apart(f, b, x); }
      WithoutAbsent(front, out, x);
      OneOut(back, out, x, i - |f|);
    }
  }

  lemma DistinctPart(front: seq<string>, back: seq<string>)
    requires Distinct(front + back)
    ensures Distinct(front) && Distinct(back)
  {
    assert forall k :: 0 <= k < |back| ==> back[k] == (front + back)[|front| + k];
    assert forall k :: 0 <= k < |front| ==> front[k] == (front + back)[k];
  }

  /** Take the dragged ids out of the target's children and move the drop position along. */
  method TakeOutDragged(
    children: seq<string>, dragged: seq<string>, hovered: nat)
    returns (nextChildren: seq<string>, insertAt: nat)
    requires Distinct(children) && hovered <= |children|
    ensures var out := set x | x in dragged;
            && nextChildren == Without(children, out) && insertAt <= |nextChildren|
            && nextChildren[..insertAt] == Without(children[..hovered], out)
            && nextChildren[insertAt..] == Without(children[hovered..], out)
  {
    hide Without, Distinct;
    nextChildren := children;
    insertAt := hovered;
    ghost var front, back, out := children[..hovered], children[hovered..], {};
    assert children == front + back;
    WithoutNothing(front);
    WithoutNothing(back);
    for k := 0 to |dragged|
      invariant out == set x | x in dragged[..k]
      invariant nextChildren == Without(front, out) + Without(back, out)
      invariant insertAt == |Without(front, out)|
    {
      var x := dragged[k];
      assert dragged[..k + 1] == dragged[..k] + [x];
      var i := FindIndex(nextChildren, x);
      if i.Some? {
        WithoutOneMore(front, back, out, x, i.value);
        nextChildren := nextChildren[..i.value] + nextChildren[i.value + 1..];
        if i.value < insertAt { insertAt := insertAt - 1; }
      } else {
        WithoutAbsent(front, out, x);
        WithoutAbsent(back, out, x);
      }
      out := out + {x};
    }
    assert dragged[..|dragged|] == dragged;
    WithoutConcat(front, back, out);
  }

  lemma {:induction false} WithoutNothing(s: seq<string>)
    ensures Without(s, {}) == s
  {
    if s != [] { WithoutNothing(s[1..]); }
  }

  method FindIndex(s: seq<string>, x: string) returns (i: Option<nat>)
    ensures i.Some? ==> i.value < |s| && s[i.value] == x && x !in s[..i.value]
    ensures i.None? <==> x !in s
  {
    for k := 0 to |s|
      invariant x !in s[..k]
    {
      if s[k] == x { return Some(k); }
      assert s[..k + 1] == s[..k] + [s[k]];
    }
    assert s[..|s|] == s;
    return None;
  }

  // ---------------------------------------------------------------- from the hovered row to the new order

  /** The models left when those with some ids are taken out. */
  function Rest(s: seq<Model>, out: set<string>): (r: seq<Model>)
    ensures forall m :: m in r <==> m in s && m.id !in out
  {
    if s == [] then [] else (if s[0].id in out then [] else [s[0]]) + Rest(s[1..], out)
  }

  lemma {:induction false} RestIds(s: seq<Model>, out: set<string>)
    ensures IdsOf(Rest(s, out)) == Without(IdsOf(s), out)
  {
    if s != [] {
      assert IdsOf(s)[1..] == IdsOf(s[1..]);
      RestIds(s[1..], out);
    }
  }

  lemma {:induction false} RestSorted(s: seq<Model>, out: set<string>)
    requires Sorted(s)
    ensures Sorted(Rest(s, out))
  {
    hide Before;
    if s != [] {
      HeadIsLeast(s);
      assert forall j, k :: 0 <= j < k < |s[1..]| ==> Before(s[1..][j], s[1..][k]) by {
        assert forall k :: 0 <= k < |s[1..]| ==> s[1..][k] == s[k + 1];
      }
      RestSorted(s[1..], out);
      if s[0].id !in out { SortedCons(s[0], Rest(s[1..], out)); }
    }
  }

  /** Sorted contents of a folder, and some models of any folders, in a store that holds each once. */
  ghost predicate HoverState(
    models: map<string, Model>, items: seq<Model>, folderId: Option<string>, full: seq<Model>)
  {
    && Keyed(models) && Sorted(full) && DistinctIds(items)
    && (forall i :: i in items ==> i.id in models && models[i.id] == i)
    && (forall m :: m in full <==> InFolder(models, folderId, m))
  }

  lemma HoverIsDrag(models: map<string, Model>, items: seq<Model>, folderId: Option<string>, full: seq<Model>)
    requires HoverState(models, items, folderId, full)
    ensures DragState(models, items, folderId, Rest(full, set i <- items :: i.id))
  {
    hide Before, Sorted;
    var out := set i <- items :: i.id;
    var children := Rest(full, out);
    RestSorted(full, out);
    assert DistinctIds(children) by { SortedOnce(children, models); }
    forall j, k | 0 <= j < k < |children + items|
      ensures (children + items)[j].id != (children + items)[k].id
    {
      if j < |children| <= k {
        assert children[j] in children && items[k - |children|] in items;
      }
    }
  }

  /** A sorted list has no model twice, and models of a store that share an id are the same. */
  lemma SortedOnce(s: seq<Model>, models: map<string, Model>)
    requires Sorted(s) && forall m :: m in s ==> m.id in models && models[m.id] == m
    ensures DistinctIds(s)
  {
    hide Before;
    forall j, k | 0 <= j < k < |s|
      ensures s[j].id != s[k].id
    {
      assert s[j] in s && s[k] in s && Before(s[j], s[k]);
      ComparatorIsOrder(s[j], s[k], s[j]);
    }
  }

  lemma IdsOfSlices(s: seq<Model>, n: nat)
    requires n <= |s|
    ensures IdsOf(s[..n]) == IdsOf(s)[..n] && IdsOf(s[n..]) == IdsOf(s)[n..]
  {
  }

  /** The whole of a drag: what is dropped at a hovered position stands there once the sidebar has
      sorted the folder again, between the rows that were before that position and those after it. */
  lemma DropLandsWhereHovered(
    models: map<string, Model>, items: seq<Model>, folderId: Option<string>, full: seq<Model>, hovered: nat,
    children: seq<Model>, insertAt: nat, listed: seq<Model>)
    requires HoverState(models, items, folderId, full) && hovered <= |full|
    requires var out := set i <- items :: i.id;
             && children == Rest(full, out) && insertAt <= |children|
             && IdsOf(children)[..insertAt] == Without(IdsOf(full)[..hovered], out)
             && IdsOf(children)[insertAt..] == Without(IdsOf(full)[hovered..], out)
    requires Sorted(listed)
    requires forall m :: m in listed <==>
             InFolder(Written(models, Writes(items, folderId, children, insertAt)), folderId, m)
    ensures var out := set i <- items :: i.id;
            IdsOf(listed) ==
            Without(IdsOf(full)[..hovered], out) + IdsOf(items) + Without(IdsOf(full)[hovered..], out)
  {
    hide HoverState, DragState, Sorted, Writes, Written, InFolder, Without, Rest;
    HoverIsDrag(models, items, folderId, full);
    DropIsKept(models, items, folderId, children, insertAt, listed);
    IdsOfSlices(children, insertAt);
  }

  /** The tree takes the dragged rows out of the target's children and hands over the rest. */
  method FindDropPosition(
    items: seq<Model>, full: seq<Model>, hovered: nat)
    returns (children: seq<Model>, insertAt: nat)
    requires DistinctIds(full) && hovered <= |full|
    ensures var out := set i <- items :: i.id;
            && children == Rest(full, out) && insertAt <= |children|
            && IdsOf(children)[..insertAt] == Without(IdsOf(full)[..hovered], out)
            && IdsOf(children)[insertAt..] == Without(IdsOf(full)[hovered..], out)
  {
    var out := set i <- items :: i.id;
    var ids: seq<string>;
    ids, insertAt := TakeOutDragged(IdsOf(full), IdsOf(items), hovered);
    assert (set x | x in IdsOf(items)) == out;
    children := Rest(full, out);
    RestIds(full, out);
  }
}
