/** The pinned list of recent filters, and what trimming may evict from it. */
module RecentFilters {
  import Strings
  import opened Wrappers

  datatype RecentFilter = RecentFilter(value: string, pinned: bool)

  const MAX_RECENT_FILTERS: nat := 20

  // ---------------------------------------------------------------- trimming

  /** The entries at indexes that are not evicted, in order. */
  function Keep(filters: seq<RecentFilter>, evicted: set<nat>): seq<RecentFilter> {
    if filters == [] then []
    else
      var n := |filters| - 1;
      Keep(filters[..n], evicted) + if n in evicted then [] else [filters[n]]
  }

  /** Walking back from the end, drop up to excess unpinned entries. */
  function WithoutOldest(filters: seq<RecentFilter>, excess: nat): seq<RecentFilter> {
    if filters == [] || excess == 0 then filters
    else
      var n := |filters| - 1;
      if filters[n].pinned then WithoutOldest(filters[..n], excess) + [filters[n]]
      else WithoutOldest(filters[..n], excess - 1)
  }

  function Unpinned(filters: seq<RecentFilter>): nat {
    if filters == [] then 0 else Unpinned(filters[..|filters| - 1]) + if filters[|filters| - 1].pinned then 0 else 1
  }

  /** What trim leaves: unpinned entries go first, oldest first, and pinned ones from the end only
      when nothing else is left. */
  function Trimmed(filters: seq<RecentFilter>): seq<RecentFilter> {
    if |filters| <= MAX_RECENT_FILTERS then filters
    else
      var rest := WithoutOldest(filters, |filters| - MAX_RECENT_FILTERS);
      if |rest| <= MAX_RECENT_FILTERS then rest else rest[..MAX_RECENT_FILTERS]
  }

  lemma {:induction false} WithoutOldestLength(filters: seq<RecentFilter>, excess: nat)
    ensures |WithoutOldest(filters, excess)| ==
            |filters| - if excess <= Unpinned(filters) then excess else Unpinned(filters)
    ensures Unpinned(filters) <= |filters|
  {
    if filters != [] {
      WithoutOldestLength(filters[..|filters| - 1], excess);
      if excess > 0 { WithoutOldestLength(filters[..|filters| - 1], excess - 1); }
    }
  }

  /** The walk back has passed index i: what it evicts from there on is settled. */
  lemma {:induction false} KeepSplit(filters: seq<RecentFilter>, evicted: set<nat>, i: nat)
    requires i <= |filters|
    ensures Keep(filters, evicted) == Keep(filters[..i], evicted) + Keep'(filters, evicted, i)
    decreases |filters| - i
  {
    if i < |filters| {
      KeepSplit(filters, evicted, i + 1);
      assert filters[..i + 1][..i] == filters[..i];
      var here := if i in evicted then [] else [filters[i]];
      Strings.Associates(Keep(filters[..i], evicted), here, Keep'(filters, evicted, i + 1));
    } else {
      assert filters[..i] == filters;
    }
  }

  /** The kept entries from index i on. */
  function Keep'(filters: seq<RecentFilter>, evicted: set<nat>, i: nat): seq<RecentFilter>
    requires i <= |filters|
    decreases |filters| - i
  {
    if i == |filters| then [] else (if i in evicted then [] else [filters[i]]) + Keep'(filters, evicted, i + 1)
  }

  lemma {:induction false} KeepAll(filters: seq<RecentFilter>, evicted: set<nat>)
    requires forall k :: k in evicted ==> k >= |filters|
    ensures Keep(filters, evicted) == filters
  {
    if filters != [] {
      KeepAll(filters[..|filters| - 1], evicted);
      assert filters == filters[..|filters| - 1] + [filters[|filters| - 1]];
    }
  }

  lemma {:induction false} KeepOther(filters: seq<RecentFilter>, a: set<nat>, b: set<nat>, i: nat)
    requires i <= |filters| && forall k :: i <= k < |filters| ==> (k in a <==> k in b)
    ensures Keep'(filters, a, i) == Keep'(filters, b, i)
    decreases |filters| - i
  {
    if i < |filters| { KeepOther(filters, a, b, i + 1); }
  }

  method Trim(filters: seq<RecentFilter>) returns (r: seq<RecentFilter>)
    ensures r == Trimmed(filters)
  {
    hide Keep, Keep', WithoutOldest;
    var excess := |filters| - MAX_RECENT_FILTERS;
    if excess <= 0 { return filters; }
    var evicted: set<nat> := {};
    var i := |filters|;
    FirstPassStart(filters, excess);
    while i > 0 && |evicted| < excess
      invariant 0 <= i && FirstPassState(filters, excess, evicted, i)
      decreases i
    {
      FirstPassStep(filters, excess, evicted, i - 1);
      i := i - 1;
      if !filters[i].pinned { evicted := evicted + {i}; }
    }
    ghost var unpinnedOut := evicted;
    FirstPass(filters, excess, evicted, i);
    i := |filters|;
    while i > 0 && |evicted| < excess
      invariant 0 <= i <= |filters| && |evicted| <= excess
      invariant forall k :: k in evicted ==> k < |filters|
      invariant |unpinnedOut| < excess ==>
                  forall k: nat :: k in evicted <==> k in unpinnedOut || i <= k < |filters|
      invariant |unpinnedOut| == excess ==> evicted == unpinnedOut
      decreases i
    {
      i := i - 1;
      evicted := evicted + {i};
    }
    if i == 0 && |evicted| < excess { AllEvicted(filters, evicted); }
    SecondPass(filters, excess, unpinnedOut, evicted, i);
    r := Keep(filters, evicted);
  }

  lemma AllEvicted(filters: seq<RecentFilter>, evicted: set<nat>)
    requires forall k: nat :: k in evicted <==> k < |filters|
    ensures |evicted| == |filters|
  {
    KeepLength(filters, evicted);
    KeepSplit(filters, evicted, 0);
    NothingKept(filters, evicted, 0);
    assert filters[..0] == [];
  }

  /** Walking back has reached index i: what it keeps from there on is settled, and what lies
      before is still to be trimmed by the rest of the excess. */
  ghost predicate FirstPassState(filters: seq<RecentFilter>, excess: nat, evicted: set<nat>, i: nat) {
    && i <= |filters| && |evicted| <= excess
    && (forall k :: k in evicted ==> i <= k < |filters|)
    && WithoutOldest(filters, excess) == WithoutOldest(filters[..i], excess - |evicted|) + Keep'(filters, evicted, i)
  }

  lemma FirstPassStart(filters: seq<RecentFilter>, excess: nat)
    ensures FirstPassState(filters, excess, {}, |filters|)
  {
    assert filters[..|filters|] == filters;
  }

  lemma FirstPassStep(filters: seq<RecentFilter>, excess: nat, evicted: set<nat>, i: nat)
    requires i < |filters| && |evicted| < excess && FirstPassState(filters, excess, evicted, i + 1)
    ensures FirstPassState(filters, excess, if filters[i].pinned then evicted else evicted + {i}, i)
  {
    hide WithoutOldest, Keep';
    var after := if filters[i].pinned then evicted else evicted + {i};
    KeepOther(filters, evicted, after, i + 1);
    KeepUnfold(filters, after, i);
    WithoutOldestUnfold(filters, excess - |evicted|, i);
  }

  lemma KeepUnfold(filters: seq<RecentFilter>, evicted: set<nat>, i: nat)
    requires i < |filters|
    ensures Keep'(filters, evicted, i) == (if i in evicted then [] else [filters[i]]) + Keep'(filters, evicted, i + 1)
  {
  }

  lemma WithoutOldestUnfold(filters: seq<RecentFilter>, excess: nat, i: nat)
    requires i < |filters| && excess > 0
    ensures WithoutOldest(filters[..i + 1], excess) ==
            if filters[i].pinned then WithoutOldest(filters[..i], excess) + [filters[i]]
            else WithoutOldest(filters[..i], excess - 1)
  {
    assert filters[..i + 1][..i] == filters[..i];
  }

  lemma FirstPass(filters: seq<RecentFilter>, excess: nat, evicted: set<nat>, i: nat)
    requires i <= |filters| && (i == 0 || |evicted| == excess) && |evicted| <= excess
    requires forall k :: k in evicted ==> i <= k < |filters|
    requires WithoutOldest(filters, excess) ==
             WithoutOldest(filters[..i], excess - |evicted|) + Keep'(filters, evicted, i)
    ensures Keep(filters, evicted) == WithoutOldest(filters, excess)
  {
    KeepSplit(filters, evicted, i);
    KeepAll(filters[..i], evicted);
  }

  lemma {:induction false} KeepLength(filters: seq<RecentFilter>, evicted: set<nat>)
    requires forall k :: k in evicted ==> k < |filters|
    ensures |Keep(filters, evicted)| == |filters| - |evicted|
  {
    if filters == [] {
      assert evicted == {};
    } else {
      var n := |filters| - 1;
      KeepLength(filters[..n], evicted - {n});
      KeepPrefix(filters[..n], evicted, evicted - {n});
    }
  }

  lemma {:induction false} KeepPrefix(filters: seq<RecentFilter>, a: set<nat>, b: set<nat>)
    requires forall k :: 0 <= k < |filters| ==> (k in a <==> k in b)
    ensures Keep(filters, a) == Keep(filters, b)
  {
    if filters != [] { KeepPrefix(filters[..|filters| - 1], a, b); }
  }

  lemma {:induction false} NothingKept(filters: seq<RecentFilter>, evicted: set<nat>, i: nat)
    requires i <= |filters| && forall k :: i <= k < |filters| ==> k in evicted
    ensures Keep'(filters, evicted, i) == []
    decreases |filters| - i
  {
    if i < |filters| { NothingKept(filters, evicted, i + 1); }
  }

  lemma SecondPass(filters: seq<RecentFilter>, excess: nat, out: set<nat>, evicted: set<nat>, i: nat)
    requires excess == |filters| - MAX_RECENT_FILTERS && excess > 0 && |out| <= excess && i <= |filters|
    requires Keep(filters, out) == WithoutOldest(filters, excess)
    requires forall k :: k in out || k in evicted ==> k < |filters|
    requires |evicted| == excess
    requires if |out| == excess then evicted == out
             else forall k: nat :: k in evicted <==> k in out || i <= k < |filters|
    ensures Keep(filters, evicted) == Trimmed(filters)
  {
    hide WithoutOldest, Keep, Keep';
    KeepLength(filters, out);
    KeepLength(filters, evicted);
    if |out| < excess {
      KeepSplit(filters, evicted, i);
      NothingKept(filters, evicted, i);
      KeepPrefix(filters[..i], out, evicted);
      KeepSplit(filters, out, i);
    }
  }

  // ---------------------------------------------------------------- updates

  function Has(filters: seq<RecentFilter>, value: string): bool {
    exists f <- filters :: f.value == value
  }

  predicate PinnedIn(filters: seq<RecentFilter>, value: string) {
    exists f <- filters :: f.value == value && f.pinned
  }

  function Others(filters: seq<RecentFilter>, value: string): (r: seq<RecentFilter>)
    ensures forall f :: f in r <==> f in filters && f.value != value
    ensures |r| <= |filters|
  {
    if filters == [] then []
    else
      var n := |filters| - 1;
      assert filters == filters[..n] + [filters[n]];
      Others(filters[..n], value) + if filters[n].value == value then [] else [filters[n]]
  }

  /** The pin of the first entry with that value. */
  function PinOf(filters: seq<RecentFilter>, value: string): bool {
    filters != [] && if filters[0].value == value then filters[0].pinned else PinOf(filters[1..], value)
  }

  function Added(filters: seq<RecentFilter>, value: string): seq<RecentFilter> {
    if value == "" || (filters != [] && filters[0].value == value) then filters
    else Trimmed([RecentFilter(value, PinOf(filters, value))] + Others(filters, value))
  }

  function PinToggled(filters: seq<RecentFilter>, value: string): (r: seq<RecentFilter>)
    ensures |r| == |filters|
    ensures forall k :: 0 <= k < |filters| ==>
              r[k] == if filters[k].value == value then filters[k].(pinned := !filters[k].pinned) else filters[k]
  {
    seq(|filters|, k requires 0 <= k < |filters| =>
      if filters[k].value == value then filters[k].(pinned := !filters[k].pinned) else filters[k])
  }

  class RecentFilterList {
    const filterStateKey: Option<string>
    var filters: seq<RecentFilter>

    constructor (filterStateKey: Option<string>)
      ensures this.filterStateKey == filterStateKey && filters == []
    {
      this.filterStateKey := filterStateKey;
      filters := [];
    }

    method AddFilter(rawValue: string)
      modifies this
      ensures filters == if filterStateKey.Some? then Added(old(filters), Strings.TrimText(rawValue)) else old(filters)
    {
      var value := Strings.TrimText(rawValue);
      if filterStateKey.None? || value == "" { return; }
      if filters != [] && filters[0].value == value { return; }
      var rest := Others(filters, value);
      filters := Trim([RecentFilter(value, PinOf(filters, value))] + rest);
    }

    method RemoveFilter(value: string)
      modifies this
      ensures filters == Others(old(filters), value)
    {
      filters := Others(filters, value);
    }

    method TogglePin(value: string)
      modifies this
      ensures filters == PinToggled(old(filters), value)
    {
      filters := PinToggled(filters, value);
    }

    method ClearFilters()
      modifies this
      ensures filters == []
    {
      filters := [];
    }
  }

  /** a is b with some entries left out. */
  predicate Subsequence(a: seq<RecentFilter>, b: seq<RecentFilter>) {
    if a == [] then true
    else if b == [] then false
    else
      || (a[|a| - 1] == b[|b| - 1] && Subsequence(a[..|a| - 1], b[..|b| - 1]))
      || Subsequence(a, b[..|b| - 1])
  }

  lemma {:induction false} WithoutOldestInOrder(filters: seq<RecentFilter>, excess: nat)
    ensures Subsequence(WithoutOldest(filters, excess), filters)
  {
    if filters == [] || excess == 0 {
      SubsequenceItself(filters);
    } else {
      var n := |filters| - 1;
      WithoutOldestInOrder(filters[..n], if filters[n].pinned then excess else excess - 1);
      var rest := WithoutOldest(filters[..n], excess);
      assert (rest + [filters[n]])[..|rest|] == rest;
    }
  }

  lemma {:induction false} SubsequenceItself(filters: seq<RecentFilter>)
    ensures Subsequence(filters, filters)
  {
    if filters != [] { SubsequenceItself(filters[..|filters| - 1]); }
  }

  lemma {:induction false} FrontIsSubsequence(a: seq<RecentFilter>, b: seq<RecentFilter>, n: nat)
    requires Subsequence(a, b) && n <= |a|
    ensures Subsequence(a[..n], b)
    decreases |b|
  {
    if n == |a| {
      assert a[..n] == a;
    } else if n > 0 {
      if Subsequence(a, b[..|b| - 1]) {
        FrontIsSubsequence(a, b[..|b| - 1], n);
      } else {
        assert a[..|a| - 1][..n] == a[..n];
        FrontIsSubsequence(a[..|a| - 1], b[..|b| - 1], n);
      }
    }
  }

  /** Trimming keeps the order, leaves exactly twenty entries of a longer list, and gives up pinned
      ones only when more than twenty are pinned. */
  lemma TrimmedKeeps(filters: seq<RecentFilter>)
    ensures Subsequence(Trimmed(filters), filters)
    ensures |Trimmed(filters)| == if |filters| > MAX_RECENT_FILTERS then MAX_RECENT_FILTERS else |filters|
    ensures |filters| - Unpinned(filters) <= MAX_RECENT_FILTERS ==>
              forall f :: f in filters && f.pinned ==> f in Trimmed(filters)
  {
    var excess := |filters| - MAX_RECENT_FILTERS;
    if excess <= 0 {
      SubsequenceItself(filters);
    } else {
      var rest := WithoutOldest(filters, excess);
      WithoutOldestLength(filters, excess);
      WithoutOldestInOrder(filters, excess);
      WithoutOldestKeeps(filters, excess);
      FrontIsSubsequence(rest, filters, MAX_RECENT_FILTERS);
    }
  }

  lemma {:induction false} SubsequenceOrder(a: seq<RecentFilter>, b: seq<RecentFilter>, p: nat, q: nat)
    returns (j: nat, k: nat)
    requires Subsequence(a, b) && p < q < |a|
    ensures j < k < |b| && b[j] == a[p] && b[k] == a[q]
    decreases |b|
  {
    var n := |b| - 1;
    if Subsequence(a, b[..n]) {
      j, k := SubsequenceOrder(a, b[..n], p, q);
    } else if q < |a| - 1 {
      j, k := SubsequenceOrder(a[..|a| - 1], b[..n], p, q);
    } else {
      j := SubsequenceMember(a[..q], b[..n], p);
      k := n;
    }
  }

  lemma {:induction false} SubsequenceMember(a: seq<RecentFilter>, b: seq<RecentFilter>, p: nat) returns (j: nat)
    requires Subsequence(a, b) && p < |a|
    ensures j < |b| && b[j] == a[p]
    decreases |b|
  {
    var n := |b| - 1;
    if Subsequence(a, b[..n]) {
      j := SubsequenceMember(a, b[..n], p);
    } else if p < |a| - 1 {
      j := SubsequenceMember(a[..|a| - 1], b[..n], p);
    } else {
      j := n;
    }
  }

  /** Pinned entries are given up from the end: what outlives trimming has every newer pinned entry
      with it. */
  lemma NewerPinnedStay(filters: seq<RecentFilter>, j: nat, k: nat)
    requires DistinctValues(filters) && j < k < |filters| && filters[j].pinned && filters[k] in Trimmed(filters)
    ensures filters[j] in Trimmed(filters)
  {
    hide WithoutOldest, Subsequence;
    var excess := |filters| - MAX_RECENT_FILTERS;
    if excess > 0 {
      var rest := WithoutOldest(filters, excess);
      WithoutOldestKeeps(filters, excess);
      WithoutOldestInOrder(filters, excess);
      assert filters[j] in rest;
      var p :| 0 <= p < |rest| && rest[p] == filters[j];
      var q :| 0 <= q < |rest| && rest[q] == filters[k] && q < MAX_RECENT_FILTERS;
      if q < p { var x, y := SubsequenceOrder(rest, filters, q, p); }
    }
  }

  // ---------------------------------------------------------------- runs

  datatype Update = Add(rawValue: string) | Remove(value: string) | TogglePin(value: string) | Clear

  function Apply(filters: seq<RecentFilter>, u: Update): seq<RecentFilter> {
    match u
    case Add(rawValue) => Added(filters, Strings.TrimText(rawValue))
    case Remove(value) => Others(filters, value)
    case TogglePin(value) => PinToggled(filters, value)
    case Clear => []
  }

  function After(filters: seq<RecentFilter>, updates: seq<Update>): seq<RecentFilter>
    decreases |updates|
  {
    if updates == [] then filters else After(Apply(filters, updates[0]), updates[1..])
  }

  predicate DistinctValues(filters: seq<RecentFilter>) {
    forall j, k :: 0 <= j < k < |filters| ==> filters[j].value != filters[k].value
  }

  predicate Bounded(filters: seq<RecentFilter>) {
    DistinctValues(filters) && |filters| <= MAX_RECENT_FILTERS
  }

  lemma {:induction false} OthersDistinct(filters: seq<RecentFilter>, value: string)
    requires DistinctValues(filters)
    ensures DistinctValues(Others(filters, value))
  {
    if filters != [] {
      var n := |filters| - 1;
      OthersDistinct(filters[..n], value);
      assert forall f :: f in filters[..n] ==> f.value != filters[n].value;
    }
  }

  /** Dropping unpinned entries keeps every pinned one, and keeps the order. */
  lemma {:induction false} WithoutOldestKeeps(filters: seq<RecentFilter>, excess: nat)
    ensures forall f :: f in WithoutOldest(filters, excess) ==> f in filters
    ensures forall f :: f in filters && f.pinned ==> f in WithoutOldest(filters, excess)
    ensures DistinctValues(filters) ==> DistinctValues(WithoutOldest(filters, excess))
  {
    if filters != [] && excess > 0 {
      var n := |filters| - 1;
      assert filters == filters[..n] + [filters[n]];
      if filters[n].pinned {
        WithoutOldestKeeps(filters[..n], excess);
        if DistinctValues(filters) { assert forall f :: f in filters[..n] ==> f.value != filters[n].value; }
      } else {
        WithoutOldestKeeps(filters[..n], excess - 1);
      }
    }
  }

  /** An entry that outlives another unpinned one is newer than it: only the oldest unpinned
      entries are dropped. */
  lemma {:induction false} OnlyOldestDropped(filters: seq<RecentFilter>, excess: nat, j: nat, k: nat)
    requires DistinctValues(filters) && j < k < |filters| && !filters[j].pinned && !filters[k].pinned
    requires filters[k] in WithoutOldest(filters, excess)
    ensures filters[j] in WithoutOldest(filters, excess)
  {
    var n := |filters| - 1;
    assert filters[n] !in filters[..n];
    if excess > 0 {
      if filters[n].pinned {
        assert filters[..n][j] == filters[j] && filters[..n][k] == filters[k];
        OnlyOldestDropped(filters[..n], excess, j, k);
      } else {
        WithoutOldestKeeps(filters[..n], excess - 1);
        if k < n {
          assert filters[..n][j] == filters[j] && filters[..n][k] == filters[k];
          OnlyOldestDropped(filters[..n], excess - 1, j, k);
        }
      }
    }
  }

  /** In a list that an add makes too long, the new entry is unpinned, so trimming never reaches a
      pinned one: the second eviction loop has nothing to do. */
  lemma {:induction false} AddLeavesRoom(filters: seq<RecentFilter>, value: string)
    requires Bounded(filters)
    ensures var list := [RecentFilter(value, PinOf(filters, value))] + Others(filters, value);
            && DistinctValues(list)
            && (|list| > MAX_RECENT_FILTERS ==>
                 |list| == MAX_RECENT_FILTERS + 1 && Unpinned(list) >= 1 && !Has(filters, value))
            && Trimmed(list) == WithoutOldest(list, if |list| > MAX_RECENT_FILTERS then 1 else 0)
  {
    hide Others, Unpinned, PinOf, Has, WithoutOldest;
    var entry, rest := RecentFilter(value, PinOf(filters, value)), Others(filters, value);
    var list := [entry] + rest;
    NothingDropped(list);
    OthersDistinct(filters, value);
    if |list| > MAX_RECENT_FILTERS {
      OthersLength(filters, value);
      PinOfAbsent(filters, value);
      UnpinnedHead(entry, rest);
      WithoutOldestLength(list, 1);
    }
  }

  /** Dropping one entry behind a new, unpinned one takes the new entry itself when everything
      else is pinned. */
  lemma {:induction false} OneBehindHead(f: RecentFilter, rest: seq<RecentFilter>)
    requires !f.pinned
    ensures WithoutOldest([f] + rest, 1) ==
            if exists g :: g in rest && !g.pinned then [f] + WithoutOldest(rest, 1) else rest
    decreases |rest|
  {
    var list, n := [f] + rest, |rest| - 1;
    if rest == [] {
      assert list[..0] == [];
    } else {
      assert list[..|rest|] == [f] + rest[..n] && rest == rest[..n] + [rest[n]];
      NothingDropped([f] + rest[..n]);
      NothingDropped(rest[..n]);
      if rest[n].pinned { OneBehindHead(f, rest[..n]); }
    }
  }

  lemma {:induction false} OthersOfAbsent(filters: seq<RecentFilter>, value: string)
    requires !Has(filters, value)
    ensures Others(filters, value) == filters
  {
    if filters != [] {
      var n := |filters| - 1;
      assert filters == filters[..n] + [filters[n]];
      OthersOfAbsent(filters[..n], value);
    }
  }

  /** An added filter stands at the head of the list afterwards, except that a new one is given up
      at once when the list is full of pinned ones. */
  lemma AddShowsIff(filters: seq<RecentFilter>, value: string)
    requires Bounded(filters) && value != ""
    ensures var after := Added(filters, value);
            && (Has(after, value) <==>
                Has(filters, value) || |filters| < MAX_RECENT_FILTERS || exists f :: f in filters && !f.pinned)
            && (Has(after, value) ==> after[0].value == value)
            && (!Has(after, value) ==> after == filters)
  {
    hide Others, PinOf, WithoutOldest, Unpinned;
    if filters == [] || filters[0].value != value {
      var entry, rest := RecentFilter(value, PinOf(filters, value)), Others(filters, value);
      AddLeavesRoom(filters, value);
      NothingDropped([entry] + rest);
      if !Has(filters, value) { OthersOfAbsent(filters, value); }
      if |[entry] + rest| > MAX_RECENT_FILTERS {
        PinOfAbsent(filters, value);
        OneBehindHead(entry, rest);
      }
    }
  }

  // ---------------------------------------------------------------- lists entry by entry

  /** filters without entry k. */
  function Without(filters: seq<RecentFilter>, k: nat): seq<RecentFilter>
    requires k < |filters|
  {
    filters[..k] + filters[k + 1..]
  }

  lemma OthersUnfold(filters: seq<RecentFilter>, value: string)
    requires filters != []
    ensures var n := |filters| - 1;
            Others(filters, value) ==
            Others(filters[..n], value) + if filters[n].value == value then [] else [filters[n]]
  {
  }

  lemma {:induction false} OthersAt(filters: seq<RecentFilter>, value: string, k: nat)
    requires DistinctValues(filters) && k < |filters| && filters[k].value == value
    ensures Others(filters, value) == Without(filters, k)
  {
    hide Others;
    var n := |filters| - 1;
    OthersUnfold(filters, value);
    if k < n {
      OthersAt(filters[..n], value, k);
      assert Without(filters, k) == Without(filters[..n], k) + [filters[n]];
    } else {
      assert forall j :: 0 <= j < n ==> filters[..n][j].value != value;
      OthersOfAbsent(filters[..n], value);
      assert filters[n + 1..] == [];
    }
  }

  /** An entry that is there keeps its pin. */
  lemma {:induction false} PinOfAt(filters: seq<RecentFilter>, value: string, k: nat)
    requires DistinctValues(filters) && k < |filters| && filters[k].value == value
    ensures PinOf(filters, value) == filters[k].pinned
  {
    if k > 0 {
      assert filters[1..][k - 1] == filters[k];
      PinOfAt(filters[1..], value, k - 1);
    }
  }

  /** Entry j is the last one that is not pinned. */
  predicate LastUnpinned(filters: seq<RecentFilter>, j: nat) {
    j < |filters| && !filters[j].pinned && forall k :: j < k < |filters| ==> filters[k].pinned
  }

  lemma {:induction false} LastUnpinnedDropped(filters: seq<RecentFilter>, j: nat)
    requires LastUnpinned(filters, j)
    ensures WithoutOldest(filters, 1) == Without(filters, j)
  {
    var n := |filters| - 1;
    NothingDropped(filters[..n]);
    if j < n {
      LastUnpinnedDropped(filters[..n], j);
      assert Without(filters, j) == Without(filters[..n], j) + [filters[n]];
    }
  }

  lemma MovedToFront(filters: seq<RecentFilter>, value: string, k: nat)
    requires Bounded(filters) && value != "" && k < |filters| && filters[k].value == value
    ensures Added(filters, value) == [filters[k]] + Without(filters, k)
  {
    if k > 0 {
      hide Others, PinOf, Trimmed, Added;
      PinOfAt(filters, value, k);
      OthersAt(filters, value, k);
      AddedUnfold(filters, value);
      ShortTrimmed([filters[k]] + Without(filters, k));
    } else {
      hide Others, PinOf, Trimmed;
      assert filters == [filters[0]] + filters[1..];
    }
  }

  lemma AddedUnfold(filters: seq<RecentFilter>, value: string)
    requires value != "" && filters != [] && filters[0].value != value
    ensures Added(filters, value) == Trimmed([RecentFilter(value, PinOf(filters, value))] + Others(filters, value))
  {
    hide Others, PinOf, Trimmed;
  }

  lemma ShortTrimmed(filters: seq<RecentFilter>)
    requires |filters| <= MAX_RECENT_FILTERS
    ensures Trimmed(filters) == filters
  {
  }

  lemma NewInFront(filters: seq<RecentFilter>, value: string)
    requires Bounded(filters) && value != "" && forall f <- filters :: f.value != value
    ensures Added(filters, value) == Trimmed([RecentFilter(value, false)] + filters)
    ensures |filters| < MAX_RECENT_FILTERS ==> Added(filters, value) == [RecentFilter(value, false)] + filters
  {
    hide Others, PinOf, WithoutOldest;
    PinOfAbsent(filters, value);
    OthersOfAbsent(filters, value);
    if filters != [] { assert filters[0] in filters; }
  }

  lemma NewTakesPlace(filters: seq<RecentFilter>, value: string, j: nat)
    requires Bounded(filters) && value != "" && forall f <- filters :: f.value != value
    requires |filters| == MAX_RECENT_FILTERS && LastUnpinned(filters, j)
    ensures Added(filters, value) == [RecentFilter(value, false)] + Without(filters, j)
  {
    hide Others, PinOf, WithoutOldest, Added, Bounded;
    var list := [RecentFilter(value, false)] + filters;
    NewInFront(filters, value);
    assert forall k :: 0 < k < |list| ==> list[k] == filters[k - 1];
    LastUnpinnedDropped(list, j + 1);
    assert Without(list, j + 1) == [RecentFilter(value, false)] + Without(filters, j);
  }

  /** What adding a filter leaves: an entry that was there moves to the front as it was; a new one
      comes to the front unpinned, and if the list was full takes the place of the last unpinned
      entry. If there is none, nothing changes. */
  lemma AddSpelled(filters: seq<RecentFilter>, value: string)
    requires Bounded(filters) && value != ""
    ensures forall k: nat :: k < |filters| && filters[k].value == value ==>
              Added(filters, value) == [filters[k]] + Without(filters, k)
    ensures (forall f <- filters :: f.value != value) ==>
              if |filters| < 20 then Added(filters, value) == [RecentFilter(value, false)] + filters
              else
                && (forall j: nat :: LastUnpinned(filters, j) ==>
                     Added(filters, value) == [RecentFilter(value, false)] + Without(filters, j))
                && ((forall f <- filters :: f.pinned) ==> Added(filters, value) == filters)
  {
    hide Added, Without, Bounded;
    forall k: nat | k < |filters| && filters[k].value == value
      ensures Added(filters, value) == [filters[k]] + Without(filters, k)
    {
      MovedToFront(filters, value, k);
    }
    if forall f <- filters :: f.value != value {
      assert |filters| <= MAX_RECENT_FILTERS by { BoundedLength(filters); }
      NewInFront(filters, value);
      AddShowsIff(filters, value);
      forall j: nat | |filters| == MAX_RECENT_FILTERS && LastUnpinned(filters, j)
        ensures Added(filters, value) == [RecentFilter(value, false)] + Without(filters, j)
      {
        NewTakesPlace(filters, value, j);
      }
    }
  }

  lemma BoundedLength(filters: seq<RecentFilter>)
    requires Bounded(filters)
    ensures |filters| <= MAX_RECENT_FILTERS
  {
  }

  /** Removing takes the one entry of that value out, if there is one. */
  lemma RemoveSpelled(filters: seq<RecentFilter>, value: string)
    requires DistinctValues(filters)
    ensures forall k: nat :: k < |filters| && filters[k].value == value ==>
              Others(filters, value) == Without(filters, k)
    ensures (forall f <- filters :: f.value != value) ==> Others(filters, value) == filters
  {
    forall k: nat | k < |filters| && filters[k].value == value
      ensures Others(filters, value) == Without(filters, k)
    {
      OthersAt(filters, value, k);
    }
    if forall f <- filters :: f.value != value { OthersOfAbsent(filters, value); }
  }

  lemma NothingDropped(filters: seq<RecentFilter>)
    ensures WithoutOldest(filters, 0) == filters
  {
  }

  lemma {:induction false} OthersLength(filters: seq<RecentFilter>, value: string)
    ensures |Others(filters, value)| == |filters| ==> !Has(filters, value)
  {
    if filters != [] {
      var n := |filters| - 1;
      OthersLength(filters[..n], value);
      assert filters == filters[..n] + [filters[n]];
    }
  }

  lemma {:induction false} PinOfAbsent(filters: seq<RecentFilter>, value: string)
    ensures !Has(filters, value) ==> !PinOf(filters, value)
  {
    if filters != [] {
      assert filters[0] in filters && forall f :: f in filters[1..] ==> f in filters;
      PinOfAbsent(filters[1..], value);
    }
  }

  lemma {:induction false} PinOfPresent(filters: seq<RecentFilter>, value: string)
    requires DistinctValues(filters) && PinnedIn(filters, value)
    ensures PinOf(filters, value)
  {
    var f :| f in filters && f.value == value && f.pinned;
    var k :| 0 <= k < |filters| && filters[k] == f;
    if k > 0 {
      assert f == filters[1..][k - 1];
      PinOfPresent(filters[1..], value);
    }
  }

  lemma {:induction false} UnpinnedHead(f: RecentFilter, rest: seq<RecentFilter>)
    requires !f.pinned
    ensures Unpinned([f] + rest) >= 1
    decreases |rest|
  {
    if rest == [] {
      assert [f] + rest == [f] && [f][..0] == [];
    } else {
      assert ([f] + rest)[..|rest|] == [f] + rest[..|rest| - 1];
      UnpinnedHead(f, rest[..|rest| - 1]);
    }
  }

  lemma ApplyKeepsBounded(filters: seq<RecentFilter>, u: Update)
    requires Bounded(filters)
    ensures Bounded(Apply(filters, u))
  {
    match u
    case Add(rawValue) =>
      var value := Strings.TrimText(rawValue);
      AddLeavesRoom(filters, value);
      var list := [RecentFilter(value, PinOf(filters, value))] + Others(filters, value);
      WithoutOldestKeeps(list, 1);
      WithoutOldestLength(list, 1);
    case Remove(value) => OthersDistinct(filters, value);
    case _ =>
  }

  /** A pinned filter is given up only by removing it, by unpinning it, or by clearing the list. */
  lemma PinnedSurvives(filters: seq<RecentFilter>, u: Update, value: string)
    requires Bounded(filters) && PinnedIn(filters, value)
    requires u != Clear && u != Remove(value) && u != TogglePin(value)
    ensures PinnedIn(Apply(filters, u), value)
  {
    var f :| f in filters && f.value == value && f.pinned;
    match u
    case Add(rawValue) =>
      var v := Strings.TrimText(rawValue);
      AddLeavesRoom(filters, v);
      var list := [RecentFilter(v, PinOf(filters, v))] + Others(filters, v);
      WithoutOldestKeeps(list, 1);
      if v == value { PinOfPresent(filters, value); assert RecentFilter(v, true) in list; } else { assert f in list; }
    case Remove(v) => assert f in Others(filters, v);
    case TogglePin(v) =>
      var k :| 0 <= k < |filters| && filters[k] == f;
      assert PinToggled(filters, v)[k] == f;
    case Clear =>
  }

  /** Over every run from the empty list the values stay distinct and at most twenty. */
  lemma {:induction false} RunStaysBounded(filters: seq<RecentFilter>, updates: seq<Update>)
    requires Bounded(filters)
    ensures Bounded(After(filters, updates))
    decreases |updates|
  {
    if updates != [] {
      ApplyKeepsBounded(filters, updates[0]);
      RunStaysBounded(Apply(filters, updates[0]), updates[1..]);
    }
  }

  /** Over every run, a filter pinned at some point is still pinned at the end if it was not
      removed, unpinned or cleared away in between. */
  lemma {:induction false} PinsLast(filters: seq<RecentFilter>, updates: seq<Update>, value: string)
    requires Bounded(filters) && PinnedIn(filters, value)
    requires Clear !in updates && Remove(value) !in updates && TogglePin(value) !in updates
    ensures PinnedIn(After(filters, updates), value)
    decreases |updates|
  {
    if updates != [] {
      assert updates[0] in updates && forall u :: u in updates[1..] ==> u in updates;
      ApplyKeepsBounded(filters, updates[0]);
      PinnedSurvives(filters, updates[0], value);
      PinsLast(Apply(filters, updates[0]), updates[1..], value);
    }
  }

  // ---------------------------------------------------------------- a list full of pinned filters

  lemma {:induction false} AfterPush(filters: seq<RecentFilter>, updates: seq<Update>, u: Update)
    ensures After(filters, updates + [u]) == Apply(After(filters, updates), u)
    decreases |updates|
  {
    if updates == [] {
      assert updates + [u] == [u] && [u][1..] == [];
    } else {
      assert (updates + [u])[0] == updates[0] && (updates + [u])[1..] == updates[1..] + [u];
      AfterPush(Apply(filters, updates[0]), updates[1..], u);
    }
  }

  function Word(n: nat): (r: string)
    ensures |r| == n && forall c <- r :: c == 'a'
  {
    if n == 0 then "" else Word(n - 1) + "a"
  }

  lemma WordIsTrimmed(n: nat)
    ensures Strings.TrimText(Word(n)) == Word(n)
  {
    if n > 0 { assert Word(n)[0] in Word(n) && Word(n)[n - 1] in Word(n); }
  }

  /** n filters pinned, the newest first. */
  function PinnedWords(n: nat): (r: seq<RecentFilter>)
    ensures |r| == n && forall k :: 0 <= k < n ==> r[k] == RecentFilter(Word(n - k), true)
  {
    if n == 0 then [] else [RecentFilter(Word(n), true)] + PinnedWords(n - 1)
  }

  lemma {:induction false} NewWord(n: nat)
    requires 0 < n <= MAX_RECENT_FILTERS
    ensures Apply(PinnedWords(n - 1), Add(Word(n))) == [RecentFilter(Word(n), false)] + PinnedWords(n - 1)
  {
    hide Others, PinOf, PinnedWords, Word;
    var list := PinnedWords(n - 1);
    assert forall f <- list :: |f.value| < n && |Word(n)| == n;
    assert !Has(list, Word(n));
    WordIsTrimmed(n);
    OthersOfAbsent(list, Word(n));
    PinOfAbsent(list, Word(n));
  }

  lemma NewWordPinned(n: nat)
    requires 0 < n
    ensures PinToggled([RecentFilter(Word(n), false)] + PinnedWords(n - 1), Word(n)) == PinnedWords(n)
  {
    hide Word;
    var added := [RecentFilter(Word(n), false)] + PinnedWords(n - 1);
    assert forall k :: 0 < k < n ==> |added[k].value| == n - k;
  }

  /** Adding and pinning one filter after the other reaches them, up to twenty. */
  lemma {:induction false} PinnedWordsReached(n: nat) returns (updates: seq<Update>)
    requires n <= MAX_RECENT_FILTERS
    ensures After([], updates) == PinnedWords(n)
  {
    hide Word, PinToggled, Added;
    updates := [];
    if n > 0 {
      var before := PinnedWordsReached(n - 1);
      AfterPush([], before, Add(Word(n)));
      NewWord(n);
      AfterPush([], before + [Add(Word(n))], TogglePin(Word(n)));
      NewWordPinned(n);
      updates := before + [Add(Word(n))] + [TogglePin(Word(n))];
    }
  }

  lemma AddUnfold(filters: seq<RecentFilter>, rawValue: string)
    ensures Apply(filters, Add(rawValue)) == Added(filters, Strings.TrimText(rawValue))
  {
  }

  /** A run from the empty list after which a new filter is given up at once. */
  lemma NewFilterLeavesNoTrace() returns (updates: seq<Update>, rawValue: string)
    ensures var filters := After([], updates);
            && |filters| == MAX_RECENT_FILTERS && !Has(filters, Strings.TrimText(rawValue))
            && Apply(filters, Add(rawValue)) == filters
  {
    hide PinnedWords, Word, Apply, After, Added;
    updates := PinnedWordsReached(MAX_RECENT_FILTERS);
    rawValue := Word(MAX_RECENT_FILTERS + 1);
    RunStaysBounded([], updates);
    WordIsTrimmed(MAX_RECENT_FILTERS + 1);
    AddShowsIff(PinnedWords(MAX_RECENT_FILTERS), rawValue);
    AddUnfold(PinnedWords(MAX_RECENT_FILTERS), rawValue);
  }
}
