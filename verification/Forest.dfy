/** Forests given by parent pointers: chains of ancestors, and the trees that grow from a root. */
module Forest {
  import opened Wrappers

  /** Each known id with the id of its parent. A parent id may be unknown, and pointers may form
      cycles. */
  type Parents = map<string, Option<string>>

  function Up(ps: Parents, id: string): Option<string> {
    if id in ps && ps[id].Some? && ps[id].value in ps then ps[id] else None
  }

  /** Walk up from id until there is no parent or the parent was seen, nearest first. */
  function Ancestors(ps: Parents, id: string, seen: set<string>): seq<string>
    decreases |ps.Keys - seen|
  {
    var up := Up(ps, id);
    if up.None? || up.value in seen then []
    else
      assert ps.Keys - (seen + {up.value}) == (ps.Keys - seen) - {up.value};
      [up.value] + Ancestors(ps, up.value, seen + {up.value})
  }

  /** The walk up from id ends after d steps, at an id without a parent. */
  predicate RootedAt(ps: Parents, id: string, d: nat)
    decreases d
  {
    id in ps &&
    if d == 0 then Up(ps, id).None? else Up(ps, id).Some? && RootedAt(ps, Up(ps, id).value, d - 1)
  }

  ghost predicate Rooted(ps: Parents, id: string) {
    exists d: nat :: RootedAt(ps, id, d)
  }

  /** The first d ids above id. */
  function Chain(ps: Parents, id: string, d: nat): seq<string>
    requires RootedAt(ps, id, d)
    decreases d
  {
    if d == 0 then [] else [Up(ps, id).value] + Chain(ps, Up(ps, id).value, d - 1)
  }

  /** x is r or lies somewhere beneath it. */
  predicate Below(ps: Parents, x: string, r: string) {
    x == r || r in Ancestors(ps, x, {})
  }

  predicate Distinct<T(==)>(s: seq<T>) {
    forall j, k :: 0 <= j < k < |s| ==> s[j] != s[k]
  }

  lemma {:induction false} DepthUnique(ps: Parents, id: string, d: nat, e: nat)
    requires RootedAt(ps, id, d) && RootedAt(ps, id, e)
    ensures d == e
    decreases d
  {
    if d > 0 && e > 0 { DepthUnique(ps, Up(ps, id).value, d - 1, e - 1); }
  }

  /** Nothing in seen is rooted above depth d, so a walk from depth d never meets it. */
  ghost predicate Deeper(ps: Parents, seen: set<string>, d: nat) {
    forall s, e: nat :: s in seen && RootedAt(ps, s, e) ==> e >= d
  }

  /** A rooted id's ancestors are its chain: the cut-off for repeated ids plays no part. */
  lemma {:induction false} AncestorsAreChain(ps: Parents, id: string, d: nat, seen: set<string>)
    requires RootedAt(ps, id, d) && Deeper(ps, seen, d)
    ensures Ancestors(ps, id, seen) == Chain(ps, id, d)
    decreases d
  {
    if d > 0 {
      var p := Up(ps, id).value;
      forall s, e: nat | s in seen + {p} && RootedAt(ps, s, e)
        ensures e >= d - 1
      {
        if s == p { DepthUnique(ps, p, e, d - 1); }
      }
      AncestorsAreChain(ps, p, d - 1, seen + {p});
    }
  }

  lemma AncestorsUnfold(ps: Parents, id: string)
    requires Rooted(ps, id)
    ensures Ancestors(ps, id, {}) ==
            if Up(ps, id).None? then []
            else [Up(ps, id).value] + Ancestors(ps, Up(ps, id).value, {})
    ensures Up(ps, id).Some? ==> Rooted(ps, Up(ps, id).value)
  {
    hide Ancestors, Up;
    var d: nat :| RootedAt(ps, id, d);
    AncestorsAreChain(ps, id, d, {});
    if d > 0 {
      AncestorsAreChain(ps, Up(ps, id).value, d - 1, {});
      assert Chain(ps, id, d) == [Up(ps, id).value] + Chain(ps, Up(ps, id).value, d - 1);
    }
  }

  /** An ancestor of id lies at a smaller depth, and being beneath it is inherited. */
  lemma {:induction false} ChainMember(ps: Parents, id: string, d: nat, a: string)
    requires RootedAt(ps, id, d) && a in Chain(ps, id, d)
    ensures exists e: nat :: e < d && RootedAt(ps, a, e)
    ensures forall e: nat :: RootedAt(ps, a, e) ==> e < d
    decreases d
  {
    var p := Up(ps, id).value;
    if a == p {
      assert RootedAt(ps, a, d - 1);
      forall e: nat | RootedAt(ps, a, e) ensures e < d { DepthUnique(ps, a, e, d - 1); }
    } else {
      ChainMember(ps, p, d - 1, a);
    }
  }

  lemma {:induction false} ChainTransitive(ps: Parents, id: string, d: nat, a: string, e: nat)
    requires RootedAt(ps, id, d) && a in Chain(ps, id, d) && RootedAt(ps, a, e)
    ensures forall b :: b in Chain(ps, a, e) ==> b in Chain(ps, id, d)
    decreases d
  {
    var p := Up(ps, id).value;
    if a == p {
      DepthUnique(ps, a, e, d - 1);
    } else {
      ChainTransitive(ps, p, d - 1, a, e);
    }
  }

  /** If any ancestor is rooted, or the walk up can be shortened to a rooted one, so is id. */
  lemma {:induction false} RootedDown(ps: Parents, id: string, a: string, seen: set<string>)
    requires a in Ancestors(ps, id, seen) && Rooted(ps, a)
    ensures Rooted(ps, id)
    decreases |ps.Keys - seen|
  {
    var p := Up(ps, id).value;
    if a != p {
      assert ps.Keys - (seen + {p}) == (ps.Keys - seen) - {p};
      RootedDown(ps, p, a, seen + {p});
    }
    var d: nat :| RootedAt(ps, p, d);
    assert RootedAt(ps, id, d + 1);
  }

  lemma BelowRooted(ps: Parents, x: string, r: string)
    requires Below(ps, x, r) && Rooted(ps, r)
    ensures Rooted(ps, x)
  {
    if x != r { RootedDown(ps, x, r, {}); }
  }

  lemma AncestorRooted(ps: Parents, x: string, a: string)
    requires Rooted(ps, x) && a in Ancestors(ps, x, {})
    ensures Rooted(ps, a)
  {
    var d: nat :| RootedAt(ps, x, d);
    AncestorsAreChain(ps, x, d, {});
    ChainMember(ps, x, d, a);
  }

  lemma BelowTransitive(ps: Parents, x: string, y: string, z: string)
    requires Rooted(ps, x) && Below(ps, x, y) && Below(ps, y, z)
    ensures Below(ps, x, z)
  {
    if x != y && y != z {
      var d: nat :| RootedAt(ps, x, d);
      AncestorsAreChain(ps, x, d, {});
      ChainMember(ps, x, d, y);
      var e: nat :| RootedAt(ps, y, e);
      AncestorsAreChain(ps, y, e, {});
      ChainTransitive(ps, x, d, y, e);
    }
  }

  /** Of two ids above the same rooted id, one is above the other. */
  lemma {:induction false} ChainLinear(ps: Parents, x: string, d: nat, a: string, b: string)
    requires RootedAt(ps, x, d) && Below(ps, x, a) && Below(ps, x, b)
    ensures Below(ps, a, b) || Below(ps, b, a)
    decreases d
  {
    if x != a && x != b {
      assert Rooted(ps, x);
      AncestorsUnfold(ps, x);
      ChainLinear(ps, Up(ps, x).value, d - 1, a, b);
    }
  }

  /** Siblings, or two roots, have nothing beneath them in common. */
  lemma SiblingsDisjoint(ps: Parents, x: string, a: string, b: string)
    requires Rooted(ps, x) && Below(ps, x, a) && Below(ps, x, b) && Up(ps, a) == Up(ps, b)
    ensures a == b
  {
    var d: nat :| RootedAt(ps, x, d);
    ChainLinear(ps, x, d, a, b);
    if a != b {
      var lo, hi := if Below(ps, a, b) then a else b, if Below(ps, a, b) then b else a;
      AncestorsAreChain(ps, x, d, {});
      if lo != x { ChainMember(ps, x, d, lo); }
      var e: nat :| RootedAt(ps, lo, e);
      AncestorsAreChain(ps, lo, e, {});
      ChainMember(ps, lo, e, hi);
      var f: nat :| f < e && RootedAt(ps, hi, f);
      DepthUnique(ps, Up(ps, lo).value, e - 1, f - 1);
    }
  }

  /** A rooted id lies beneath some root. */
  lemma {:induction false} UnderSomeRoot(ps: Parents, x: string, d: nat) returns (root: string)
    requires RootedAt(ps, x, d)
    ensures root in ps && Up(ps, root).None? && Below(ps, x, root) && Rooted(ps, root)
    decreases d
  {
    assert Rooted(ps, x);
    if d == 0 {
      root := x;
    } else {
      root := UnderSomeRoot(ps, Up(ps, x).value, d - 1);
      AncestorsUnfold(ps, x);
    }
  }

  // ---------------------------------------------------------------- trees

  datatype Tree = Tree(id: string, subs: seq<Tree>)

  function Kids(kids: map<string, seq<string>>, id: string): seq<string> {
    if id in kids then kids[id] else []
  }

  /** kids lists, without repetition, exactly the ids whose parent is the key. */
  ghost predicate Linked(ps: Parents, kids: map<string, seq<string>>) {
    forall id :: Distinct(Kids(kids, id)) &&
                 forall c :: c in Kids(kids, id) <==> Up(ps, c) == Some(id)
  }

  function Keys(t: Tree): seq<string> {
    [t.id] + KeysOfAll(t.subs)
  }

  function KeysOfAll(ts: seq<Tree>): seq<string> {
    if ts == [] then [] else Keys(ts[0]) + KeysOfAll(ts[1..])
  }

  /** Grow the tree beneath id, cutting it off where an id repeats one above it. */
  function Grow(ps: Parents, kids: map<string, seq<string>>, id: string, seen: set<string>): Tree
    requires id in ps
    requires forall i, c :: i in kids && c in kids[i] ==> c in ps
    decreases |ps.Keys - seen|, 1
  {
    if id in seen then Tree(id, [])
    else
      assert ps.Keys - (seen + {id}) == (ps.Keys - seen) - {id};
      Tree(id, GrowAll(ps, kids, Kids(kids, id), seen + {id}))
  }

  function GrowAll(ps: Parents, kids: map<string, seq<string>>, ids: seq<string>, seen: set<string>): (ts: seq<Tree>)
    requires forall c :: c in ids ==> c in ps
    requires forall i, c :: i in kids && c in kids[i] ==> c in ps
    ensures |ts| == |ids|
    ensures forall k :: 0 <= k < |ids| ==> ts[k].id == ids[k]
    decreases |ps.Keys - seen|, 2, |ids|
  {
    if ids == [] then [] else [Grow(ps, kids, ids[0], seen)] + GrowAll(ps, kids, ids[1..], seen)
  }

  /** Everything seen on the way down to depth d is rooted above depth d. */
  ghost predicate Shallower(ps: Parents, seen: set<string>, d: nat) {
    forall s, e: nat :: s in seen && RootedAt(ps, s, e) ==> e < d
  }

  lemma NothingShallow(ps: Parents)
    ensures Shallower(ps, {}, 0)
  {
  }

  lemma KeysOfGrown(ps: Parents, kids: map<string, seq<string>>, id: string, seen: set<string>)
    requires id in ps && id !in seen
    requires forall i, c :: i in kids && c in kids[i] ==> c in ps
    ensures Keys(Grow(ps, kids, id, seen)) == [id] + KeysOfAll(GrowAll(ps, kids, Kids(kids, id), seen + {id}))
    ensures |ps.Keys - (seen + {id})| < |ps.Keys - seen|
  {
    assert ps.Keys - (seen + {id}) == (ps.Keys - seen) - {id};
  }

  lemma OneDeeper(ps: Parents, id: string, seen: set<string>, d: nat)
    requires RootedAt(ps, id, d) && Shallower(ps, seen, d)
    ensures id in ps && id !in seen && Shallower(ps, seen + {id}, d + 1)
  {
    forall s, e: nat | s in seen + {id} && RootedAt(ps, s, e)
      ensures e < d + 1
    {
      if s == id { DepthUnique(ps, id, e, d); }
    }
  }

  /** From a rooted id the cut-off is never taken, and the tree holds exactly what lies beneath
      the id, each once. */
  lemma {:induction false} GrowHoldsSubtree(
    ps: Parents, kids: map<string, seq<string>>, id: string, seen: set<string>, d: nat)
    requires Linked(ps, kids) && RootedAt(ps, id, d) && Shallower(ps, seen, d)
    requires forall i, c :: i in kids && c in kids[i] ==> c in ps
    ensures id !in seen
    ensures forall x :: x in Keys(Grow(ps, kids, id, seen)) <==> Below(ps, x, id)
    ensures Distinct(Keys(Grow(ps, kids, id, seen)))
    decreases |ps.Keys - seen|, 1
  {
    hide Ancestors, Below, RootedAt, Linked, Grow, GrowAll, Keys, KeysOfAll, Shallower, Up, Distinct, Kids;
    var ids := Kids(kids, id);
    OneDeeper(ps, id, seen, d);
    ChildrenDepth(ps, kids, id, d);
    KeysOfGrown(ps, kids, id, seen);
    GrowAllHoldsSubtrees(ps, kids, ids, seen + {id}, d + 1, Some(id));
    var rest := KeysOfAll(GrowAll(ps, kids, ids, seen + {id}));
    assert Rooted(ps, id);
    forall x
      ensures x in [id] + rest <==> Below(ps, x, id)
    {
      BelowByChild(ps, x, id, ids);
    }
    forall c | c in ids
      ensures !Below(ps, id, c)
    {
      NotBelowChild(ps, id, d, c);
    }
    DistinctCons(id, rest);
  }

  lemma DistinctCons<T>(x: T, s: seq<T>)
    requires Distinct(s) && x !in s
    ensures Distinct([x] + s)
  {
  }

  lemma ChildrenDepth(ps: Parents, kids: map<string, seq<string>>, id: string, d: nat)
    requires Linked(ps, kids) && RootedAt(ps, id, d)
    ensures Distinct(Kids(kids, id))
    ensures forall c :: c in Kids(kids, id) <==> Up(ps, c) == Some(id)
    ensures forall c :: c in Kids(kids, id) ==> c in ps && RootedAt(ps, c, d + 1)
  {
  }

  lemma BelowByChild(ps: Parents, x: string, id: string, ids: seq<string>)
    requires Rooted(ps, id)
    requires forall c :: c in ids <==> Up(ps, c) == Some(id)
    ensures Below(ps, x, id) <==> x == id || exists c :: c in ids && Below(ps, x, c)
  {
    if x != id && Below(ps, x, id) {
      BelowRooted(ps, x, id);
      var e: nat :| RootedAt(ps, x, e);
      var c := ChildOnTheWay(ps, x, e, id);
    }
    if c :| c in ids && Below(ps, x, c) {
      var d: nat :| RootedAt(ps, id, d);
      assert RootedAt(ps, c, d + 1);
      BelowRooted(ps, x, c);
      AncestorsUnfold(ps, c);
      BelowTransitive(ps, x, c, id);
    }
  }

  lemma NotBelowChild(ps: Parents, id: string, d: nat, c: string)
    requires RootedAt(ps, id, d) && Up(ps, c) == Some(id)
    ensures !Below(ps, id, c)
  {
    assert RootedAt(ps, c, d + 1);
    forall e: nat | RootedAt(ps, id, e) ensures e == d { DepthUnique(ps, id, d, e); }
    AncestorsAreChain(ps, id, d, {});
    if Below(ps, id, c) {
      ChainMember(ps, id, d, c);
    }
  }

  /** The child of id through which x hangs beneath id. */
  lemma {:induction false} ChildOnTheWay(ps: Parents, x: string, d: nat, id: string) returns (c: string)
    requires RootedAt(ps, x, d) && x != id && Below(ps, x, id)
    ensures Up(ps, c) == Some(id) && Below(ps, x, c)
    decreases d
  {
    assert Rooted(ps, x);
    AncestorsUnfold(ps, x);
    if Up(ps, x) == Some(id) {
      c := x;
    } else {
      c := ChildOnTheWay(ps, Up(ps, x).value, d - 1, id);
    }
  }

  lemma {:induction false} GrowAllHoldsSubtrees(
    ps: Parents, kids: map<string, seq<string>>, ids: seq<string>, seen: set<string>, d: nat, up: Option<string>)
    requires Linked(ps, kids) && Shallower(ps, seen, d) && Distinct(ids)
    requires forall c :: c in ids ==> c in ps && RootedAt(ps, c, d) && Up(ps, c) == up
    requires forall i, c :: i in kids && c in kids[i] ==> c in ps
    ensures forall x :: x in KeysOfAll(GrowAll(ps, kids, ids, seen)) <==> exists c :: c in ids && Below(ps, x, c)
    ensures Distinct(KeysOfAll(GrowAll(ps, kids, ids, seen)))
    decreases |ps.Keys - seen|, 2, |ids|
  {
    if ids != [] {
      GrowHoldsSubtree(ps, kids, ids[0], seen, d);
      GrowAllHoldsSubtrees(ps, kids, ids[1..], seen, d, up);
      var first := Keys(Grow(ps, kids, ids[0], seen));
      var rest := KeysOfAll(GrowAll(ps, kids, ids[1..], seen));
      assert KeysOfAll(GrowAll(ps, kids, ids, seen)) == first + rest;
      forall x | x in first && x in rest
        ensures false
      {
        var c :| c in ids[1..] && Below(ps, x, c);
        assert Rooted(ps, c);
        BelowRooted(ps, x, c);
        SiblingsDisjoint(ps, x, ids[0], c);
      }
      DistinctConcat(first, rest);
    }
  }

  /** The trees of all roots hold exactly the rooted ids, each once, whatever the parent pointers
      are; ids on or beneath a cycle are in none. */
  lemma ForestHoldsRooted(ps: Parents, kids: map<string, seq<string>>, roots: seq<string>)
    requires Linked(ps, kids) && Distinct(roots)
    requires forall c :: c in roots <==> c in ps && Up(ps, c).None?
    requires forall i, c :: i in kids && c in kids[i] ==> c in ps
    ensures forall x :: x in KeysOfAll(GrowAll(ps, kids, roots, {})) <==> x in ps && Rooted(ps, x)
    ensures Distinct(KeysOfAll(GrowAll(ps, kids, roots, {})))
  {
    GrowAllHoldsSubtrees(ps, kids, roots, {}, 0, None);
    forall x
      ensures x in KeysOfAll(GrowAll(ps, kids, roots, {})) <==> x in ps && Rooted(ps, x)
    {
      if c :| c in roots && Below(ps, x, c) {
        assert RootedAt(ps, c, 0);
        BelowRooted(ps, x, c);
      }
      if d: nat :| RootedAt(ps, x, d) {
        var r := UnderSomeRoot(ps, x, d);
        assert r in roots;
      }
    }
  }

  lemma DistinctConcat<T>(a: seq<T>, b: seq<T>)
    requires Distinct(a) && Distinct(b) && forall x :: x in a ==> x !in b
    ensures Distinct(a + b)
  {
    forall j, k | 0 <= j < k < |a + b|
      ensures (a + b)[j] != (a + b)[k]
    {
      if j < |a| <= k { assert a[j] in a && b[k - |a|] in b; }
    }
  }
}
