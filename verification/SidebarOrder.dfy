/** The order of the sidebar: its sort comparator and the one list it sorts any models into. */
module SidebarOrder {
  import opened Wrappers

  /** A folder or a request. Priorities are exact numbers here. */
  datatype Model = Model(
    id: string, sortPriority: real, createdAt: string, workspaceId: string, folderId: Option<string>, isFolder: bool)

  /** a < b on strings, unit by unit. */
  predicate TextLess(a: string, b: string) {
    b != [] && (a == [] || a[0] < b[0] || (a[0] == b[0] && TextLess(a[1..], b[1..])))
  }

  function Compare(a: Model, b: Model): int {
    if a.sortPriority != b.sortPriority then (if a.sortPriority - b.sortPriority > 0.0 then 1 else -1)
    else if a.createdAt != b.createdAt then (if TextLess(b.createdAt, a.createdAt) then 1 else -1)
    else if a.id == b.id then 0
    else if TextLess(b.id, a.id) then 1
    else -1
  }

  predicate Before(a: Model, b: Model) {
    Compare(a, b) < 0
  }

  lemma {:induction false} TextTotal(a: string, b: string)
    ensures !(TextLess(a, b) && TextLess(b, a))
    ensures a != b ==> TextLess(a, b) || TextLess(b, a)
    ensures !TextLess(a, a)
    decreases |a|
  {
    if a != [] && b != [] {
      TextTotal(a[1..], b[1..]);
      if a != b && a[0] == b[0] { assert a == [a[0]] + a[1..] && b == [b[0]] + b[1..]; }
    }
    if a != [] { TextTotal(a[1..], a[1..]); }
  }

  lemma {:induction false} TextTransitive(a: string, b: string, c: string)
    requires TextLess(a, b) && TextLess(b, c)
    ensures TextLess(a, c)
  {
    if a != [] { if a[0] == b[0] && b[0] == c[0] { TextTransitive(a[1..], b[1..], c[1..]); } }
  }

  /** The comparator orders models with distinct ids strictly and totally. */
  lemma ComparatorIsOrder(a: Model, b: Model, c: Model)
    ensures Before(a, b) && Before(b, c) ==> Before(a, c)
    ensures !(Before(a, b) && Before(b, a))
    ensures a.id != b.id ==> Before(a, b) || Before(b, a)
    ensures !Before(a, a)
    ensures Compare(a, b) > 0 <==> Before(b, a)
  {
    hide TextLess;
    TextTotal(a.createdAt, b.createdAt);
    TextTotal(b.createdAt, c.createdAt);
    TextTotal(a.createdAt, c.createdAt);
    TextTotal(a.id, b.id);
    TextTotal(b.id, c.id);
    TextTotal(a.id, c.id);
    if TextLess(a.createdAt, b.createdAt) && TextLess(b.createdAt, c.createdAt) {
      TextTransitive(a.createdAt, b.createdAt, c.createdAt);
    }
    if TextLess(a.id, b.id) && TextLess(b.id, c.id) { TextTransitive(a.id, b.id, c.id); }
  }

  /** Where two texts first differ, the one that has ended or has the smaller unit is less. */
  lemma {:induction false} TextLessSpelled(a: string, b: string)
    ensures TextLess(a, b) <==>
            exists k :: 0 <= k <= |a| && k < |b| && a[..k] == b[..k] && (k == |a| || a[k] < b[k])
  {
    if TextLess(a, b) {
      var k := FirstDifference(a, b);
    }
    if k :| 0 <= k <= |a| && k < |b| && a[..k] == b[..k] && (k == |a| || a[k] < b[k]) {
      DifferenceDecides(a, b, k);
    }
  }

  lemma {:induction false} FirstDifference(a: string, b: string) returns (k: nat)
    requires TextLess(a, b)
    ensures k <= |a| && k < |b| && a[..k] == b[..k] && (k == |a| || a[k] < b[k])
  {
    if a == [] || a[0] < b[0] {
      k := 0;
    } else {
      k := FirstDifference(a[1..], b[1..]);
      k := k + 1;
      assert a[..k] == [a[0]] + a[1..][..k - 1] && b[..k] == [b[0]] + b[1..][..k - 1];
    }
  }

  lemma {:induction false} DifferenceDecides(a: string, b: string, k: nat)
    requires k <= |a| && k < |b| && a[..k] == b[..k] && (k == |a| || a[k] < b[k])
    ensures TextLess(a, b)
    decreases k
  {
    if k > 0 {
      assert a[0] == a[..k][0] == b[..k][0] == b[0];
      assert a[1..][..k - 1] == a[..k][1..] && b[1..][..k - 1] == b[..k][1..];
      DifferenceDecides(a[1..], b[1..], k - 1);
    }
  }

  /** Smaller priorities come first, then older models, then smaller ids. */
  lemma BeforeSpelled(a: Model, b: Model)
    ensures Before(a, b) <==>
            || a.sortPriority < b.sortPriority
            || (a.sortPriority == b.sortPriority && TextLess(a.createdAt, b.createdAt))
            || (a.sortPriority == b.sortPriority && a.createdAt == b.createdAt && TextLess(a.id, b.id))
  {
    hide TextLess;
    TextTotal(a.createdAt, b.createdAt);
    TextTotal(a.id, b.id);
  }

  predicate Sorted(s: seq<Model>) {
    forall j, k :: 0 <= j < k < |s| ==> Before(s[j], s[k])
  }

  lemma HeadIsLeast(s: seq<Model>)
    requires Sorted(s) && s != []
    ensures s[0] !in s[1..] && forall m :: m in s[1..] ==> Before(s[0], m)
  {
    hide Before;
    ComparatorIsOrder(s[0], s[0], s[0]);
    assert forall k :: 0 <= k < |s[1..]| ==> s[1..][k] == s[k + 1] && Before(s[0], s[k + 1]);
  }

  /** There is only one way to sort models by the comparator. */
  lemma {:induction false} SortedUnique(a: seq<Model>, b: seq<Model>)
    requires Sorted(a) && Sorted(b) && forall m :: m in a <==> m in b
    ensures a == b
    decreases |a|
  {
    hide Before;
    assert |b| > 0 ==> b[0] in b;
    if a != [] {
      assert a[0] in a && a[0] in b;
      HeadIsLeast(a);
      HeadIsLeast(b);
      ComparatorIsOrder(a[0], b[0], a[0]);
      assert a == [a[0]] + a[1..] && b == [b[0]] + b[1..];
      assert a[0] == b[0];
      forall m
        ensures m in a[1..] <==> m in b[1..]
      {
        assert m in a <==> m == a[0] || m in a[1..];
        assert m in b <==> m == b[0] || m in b[1..];
      }
      SortedUnique(a[1..], b[1..]);
    }
  }

  predicate DistinctIds(s: seq<Model>) {
    forall j, k :: 0 <= j < k < |s| ==> s[j].id != s[k].id
  }

  function IdsOf(s: seq<Model>): (r: seq<string>)
    ensures |r| == |s| && forall k :: 0 <= k < |s| ==> r[k] == s[k].id
  {
    seq(|s|, k requires 0 <= k < |s| => s[k].id)
  }

  function Insert(m: Model, s: seq<Model>): (r: seq<Model>)
    ensures forall x :: x in r <==> x == m || x in s
  {
    if s == [] || Compare(m, s[0]) <= 0 then [m] + s else [s[0]] + Insert(m, s[1..])
  }

  /** list.sort with the comparator. */
  function SortModels(s: seq<Model>): (r: seq<Model>)
    ensures forall x :: x in r <==> x in s
  {
    if s == [] then [] else Insert(s[0], SortModels(s[1..]))
  }

  lemma {:induction false} InsertSorted(m: Model, s: seq<Model>)
    requires Sorted(s) && forall x :: x in s ==> x.id != m.id
    ensures Sorted(Insert(m, s))
  {
    hide Before;
    if s != [] {
      HeadIsLeast(s);
      ComparatorIsOrder(m, s[0], m);
      ComparatorIsOrder(s[0], m, s[0]);
      if Compare(m, s[0]) <= 0 {
        assert Before(m, s[0]) by { NotAfter(m, s[0]); }
        forall x | x in s ensures Before(m, x) { ComparatorIsOrder(m, s[0], x); }
        SortedCons(m, s);
      } else {
        assert Before(s[0], m) by { NotAfter(m, s[0]); }
        InsertSorted(m, s[1..]);
        SortedCons(s[0], Insert(m, s[1..]));
      }
    }
  }

  lemma NotAfter(a: Model, b: Model)
    requires a.id != b.id
    ensures Compare(a, b) <= 0 ==> Before(a, b)
    ensures Compare(a, b) > 0 ==> Before(b, a)
  {
    ComparatorIsOrder(a, b, a);
  }

  lemma SortedCons(m: Model, s: seq<Model>)
    requires Sorted(s) && forall x :: x in s ==> Before(m, x)
    ensures Sorted([m] + s)
  {
    hide Before;
  }

  lemma {:induction false} SortModelsSorted(s: seq<Model>)
    requires DistinctIds(s)
    ensures Sorted(SortModels(s)) && DistinctIds(SortModels(s))
  {
    if s != [] {
      SortModelsSorted(s[1..]);
      assert forall x :: x in s[1..] ==> x.id != s[0].id;
      InsertSorted(s[0], SortModels(s[1..]));
      SortedDistinct(SortModels(s), s);
    }
  }

  lemma SortedDistinct(r: seq<Model>, s: seq<Model>)
    requires Sorted(r) && DistinctIds(s) && forall x :: x in r ==> x in s
    ensures DistinctIds(r)
  {
    forall j, k | 0 <= j < k < |r|
      ensures r[j].id != r[k].id
    {
      assert r[j] in s && r[k] in s;
      ComparatorIsOrder(r[j], r[k], r[j]);
    }
  }

  /** Sorting a sorted list changes nothing. */
  lemma SortAgain(s: seq<Model>)
    requires DistinctIds(s)
    ensures SortModels(SortModels(s)) == SortModels(s)
  {
    SortModelsSorted(s);
    SortModelsSorted(SortModels(s));
    SortedUnique(SortModels(SortModels(s)), SortModels(s));
  }
}
