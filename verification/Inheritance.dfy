/** What a request takes over from the folders and the workspace around it: its list of ancestors,
    its headers and its authentication, each found by a walk of its own. */
module Inheritance {
  import opened Forest
  import opened Wrappers

  datatype Header = Header(name: string, value: string)

  /** A workspace, or something kept in one: a folder or a request. */
  datatype Model =
    | Workspace(id: string, headers: seq<Header>, auth: Option<string>)
    | Nested(id: string, folderId: Option<string>, workspaceId: string,
             headers: seq<Header>, auth: Option<string>)

  type Space = m: Model | m.Workspace? witness Workspace("", [], None)
  type Folder = m: Model | m.Nested? witness Nested("", None, "", [], None)

  datatype Library = Library(folders: seq<Folder>, workspaces: seq<Space>)

  function Find(models: seq<Model>, id: string): Option<Model> {
    if models == [] then None
    else if models[0].id == id then Some(models[0]) else Find(models[1..], id)
  }

  predicate InFolder(m: Model) {
    m.Nested? && m.folderId.Some? && m.folderId.value != ""
  }

  /** The parent as the headers and the authentication look it up: by one id, among folders and
      workspaces together. */
  function Parent(lib: Library, m: Model): Option<Model> {
    if m.Workspace? then None
    else Find(lib.folders + lib.workspaces, if InFolder(m) then m.folderId.value else m.workspaceId)
  }

  /** The parent as the list of ancestors looks it up: a folder if there is one, else the
      workspace. */
  function NextAncestor(lib: Library, m: Model): Option<Model> {
    var folder := if InFolder(m) then Find(lib.folders, m.folderId.value) else None;
    if folder.Some? then folder
    else if m.Nested? && m.workspaceId != "" then Find(lib.workspaces, m.workspaceId)
    else None
  }

  /** The walk up from m stops after d steps. Folders on a cycle stop for no d: there the code
      recurses without end. */
  predicate AncestorsEnd(lib: Library, m: Model, d: nat)
    decreases d
  {
    var up := NextAncestor(lib, m);
    if d == 0 then up.None? else up.Some? && AncestorsEnd(lib, up.value, d - 1)
  }

  function ModelAncestors(lib: Library, m: Model, d: nat): seq<Model>
    requires AncestorsEnd(lib, m, d)
    decreases d
  {
    if d == 0 then []
    else
      var up := NextAncestor(lib, m).value;
      [up] + ModelAncestors(lib, up, d - 1)
  }

  predicate HeadersEnd(lib: Library, m: Model, d: nat)
    decreases d
  {
    var up := Parent(lib, m);
    if d == 0 then up.None? else up.Some? && HeadersEnd(lib, up.value, d - 1)
  }

  /** Every header above m, outermost first. A workspace lists its own after the defaults, and the
      step below it appends them again. */
  function AllHeaders(lib: Library, defaults: seq<Header>, m: Model, d: nat): seq<Header>
    requires HeadersEnd(lib, m, d)
    decreases d
  {
    if m.Workspace? then defaults + m.headers
    else if d == 0 then []
    else
      var up := Parent(lib, m).value;
      AllHeaders(lib, defaults, up, d - 1) + up.headers
  }

  predicate AuthenticationEnds(lib: Library, m: Model, d: nat)
    decreases d
  {
    var up := Parent(lib, m);
    if d == 0 then m.auth.Some? || up.None?
    else m.auth.None? && up.Some? && AuthenticationEnds(lib, up.value, d - 1)
  }

  function InheritedAuthentication(lib: Library, m: Model, d: nat): Option<Model>
    requires AuthenticationEnds(lib, m, d)
    decreases d
  {
    if m.auth.Some? then Some(m)
    else if d == 0 then None
    else InheritedAuthentication(lib, Parent(lib, m).value, d - 1)
  }

  // ---------------------------------------------------------------- when the walks agree

  /** A folder id names a folder, and where there is none the workspace id is not empty and
      names no folder. */
  predicate WellPlaced(lib: Library, m: Model) {
    m.Nested? ==>
      if InFolder(m) then Find(lib.folders, m.folderId.value).Some?
      else m.workspaceId != "" && Find(lib.folders, m.workspaceId).None?
  }

  predicate WellFormed(lib: Library) {
    forall k :: 0 <= k < |lib.folders| ==> WellPlaced(lib, lib.folders[k])
  }

  lemma {:induction false} FindInBoth(a: seq<Model>, b: seq<Model>, id: string)
    ensures Find(a + b, id) == if Find(a, id).Some? then Find(a, id) else Find(b, id)
  {
    if a == [] {
      assert a + b == b;
    } else {
      assert (a + b)[1..] == a[1..] + b;
      FindInBoth(a[1..], b, id);
    }
  }

  lemma {:induction false} FoundIsListed(models: seq<Model>, id: string)
    ensures Find(models, id).Some? ==> Find(models, id).value in models && Find(models, id).value.id == id
  {
    if models != [] { FoundIsListed(models[1..], id); }
  }

  lemma {:induction false} ParentsAgree(lib: Library, m: Model)
    requires WellPlaced(lib, m)
    ensures Parent(lib, m) == NextAncestor(lib, m)
  {
    if m.Nested? {
      FindInBoth(lib.folders, lib.workspaces, if InFolder(m) then m.folderId.value else m.workspaceId);
    }
  }

  /** When the two look-ups agree, on any library. With a folder id that names no folder the
      headers follow that id into the workspaces, while the list of ancestors falls back on the
      workspace id; with no folder id, the headers take an empty workspace id for an id like any
      other, and may find a folder by it. */
  predicate LookUpsMeet(lib: Library, m: Model) {
    m.Nested? ==>
      if InFolder(m) then
        || Find(lib.folders, m.folderId.value).Some?
        || Find(lib.workspaces, m.folderId.value) ==
           if m.workspaceId == "" then None else Find(lib.workspaces, m.workspaceId)
      else
        Find(lib.folders, m.workspaceId).None? && (m.workspaceId == "" ==> Find(lib.workspaces, "").None?)
  }

  lemma {:induction false} ParentsAgreeIff(lib: Library, m: Model)
    ensures Parent(lib, m) == NextAncestor(lib, m) <==> LookUpsMeet(lib, m)
  {
    if m.Nested? {
      FindInBoth(lib.folders, lib.workspaces, if InFolder(m) then m.folderId.value else m.workspaceId);
      FoundIsListed(lib.folders, m.workspaceId);
      FoundIsListed(lib.workspaces, m.workspaceId);
    }
  }

  /** The models that the walk for headers passes. */
  function HeaderModels(lib: Library, m: Model, d: nat): (r: seq<Model>)
    requires HeadersEnd(lib, m, d)
    ensures |r| == d
    decreases d
  {
    if d == 0 then []
    else
      var up := Parent(lib, m).value;
      [up] + HeaderModels(lib, up, d - 1)
  }

  /** On any library, the walk for headers passes exactly the listed ancestors if and only if the two
      look-ups meet at the model and at each of those it passes. */
  lemma {:induction false} WalksAgreeIff(lib: Library, m: Model, d: nat)
    requires HeadersEnd(lib, m, d)
    ensures AncestorsEnd(lib, m, d) && ModelAncestors(lib, m, d) == HeaderModels(lib, m, d) <==>
            LookUpsMeet(lib, m) && forall x <- HeaderModels(lib, m, d) :: LookUpsMeet(lib, x)
    decreases d
  {
    hide Find, LookUpsMeet, Parent, NextAncestor;
    ParentsAgreeIff(lib, m);
    if d > 0 {
      var up := Parent(lib, m).value;
      var rest := HeaderModels(lib, up, d - 1);
      WalksAgreeIff(lib, up, d - 1);
      assert HeaderModels(lib, m, d) == [up] + rest;
      if AncestorsEnd(lib, m, d) {
        var next := NextAncestor(lib, m).value;
        assert ModelAncestors(lib, m, d) == [next] + ModelAncestors(lib, next, d - 1);
        assert ([up] + rest)[0] == up && ([up] + rest)[1..] == rest;
        assert ModelAncestors(lib, m, d)[1..] == ModelAncestors(lib, next, d - 1);
      }
    }
  }

  /** A request whose folder is gone inherits nothing, not even the defaults, although its list of
      ancestors still holds its workspace. */
  lemma {:induction false} LostFolderLosesHeaders(lib: Library, defaults: seq<Header>, m: Model)
    requires InFolder(m) && Find(lib.folders + lib.workspaces, m.folderId.value).None?
    ensures HeadersEnd(lib, m, 0) && AllHeaders(lib, defaults, m, 0) == []
    ensures m.workspaceId != "" && Find(lib.workspaces, m.workspaceId).Some? ==>
              AncestorsEnd(lib, m, 1) && ModelAncestors(lib, m, 1) == [Find(lib.workspaces, m.workspaceId).value]
  {
    FindInBoth(lib.folders, lib.workspaces, m.folderId.value);
    if m.workspaceId != "" && Find(lib.workspaces, m.workspaceId).Some? {
      var up := Find(lib.workspaces, m.workspaceId).value;
      FoundIsListed(lib.workspaces, m.workspaceId);
      assert AncestorsEnd(lib, up, 0);
      assert ModelAncestors(lib, m, 1) == [up] + ModelAncestors(lib, up, 0);
    }
  }

  /** A request in a folder that is gone, in a workspace that is there. */
  lemma {:induction false} RequestInLostFolder()
    ensures var w := Workspace("w", [Header("A", "1")], None);
            var lib, m := Library([], [w]), Nested("r", Some("gone"), "w", [], None);
            && Parent(lib, m) == None && NextAncestor(lib, m) == Some(w)
            && HeadersEnd(lib, m, 0) && AllHeaders(lib, [Header("B", "2")], m, 0) == []
            && AncestorsEnd(lib, m, 1) && ModelAncestors(lib, m, 1) == [w]
  {
    var w := Workspace("w", [Header("A", "1")], None);
    var lib, m := Library([], [w]), Nested("r", Some("gone"), "w", [], None);
    ParentsAgreeIff(lib, m);
    FindInBoth(lib.folders, lib.workspaces, "gone");
    assert Find(lib.workspaces, "gone") == Find(lib.workspaces[1..], "gone") == None;
    LostFolderLosesHeaders(lib, [Header("B", "2")], m);
  }

  lemma {:induction false} ParentWellPlaced(lib: Library, m: Model)
    requires WellFormed(lib) && WellPlaced(lib, m) && NextAncestor(lib, m).Some?
    ensures WellPlaced(lib, NextAncestor(lib, m).value)
  {
    if InFolder(m) {
      FoundIsListed(lib.folders, m.folderId.value);
    } else {
      FoundIsListed(lib.workspaces, m.workspaceId);
    }
  }

  lemma {:induction false} WalksEndTogether(lib: Library, m: Model, d: nat)
    requires WellFormed(lib) && WellPlaced(lib, m)
    ensures HeadersEnd(lib, m, d) <==> AncestorsEnd(lib, m, d)
    decreases d
  {
    ParentsAgree(lib, m);
    if d > 0 && NextAncestor(lib, m).Some? {
      ParentWellPlaced(lib, m);
      WalksEndTogether(lib, NextAncestor(lib, m).value, d - 1);
    }
  }

  // ---------------------------------------------------------------- headers

  /** The last header of that name, names compared as key spells them. */
  function LastNamed(key: string -> string, hs: seq<Header>, name: string): Option<Header> {
    if hs == [] then None
    else if key(hs[|hs| - 1].name) == name then Some(hs[|hs| - 1])
    else LastNamed(key, hs[..|hs| - 1], name)
  }

  /** The last header of that name in the nearest model that has one, else the last default. */
  function Nearest(key: string -> string, ancestors: seq<Model>, defaults: seq<Header>, name: string): Option<Header> {
    if ancestors == [] then LastNamed(key, defaults, name)
    else
      var here := LastNamed(key, ancestors[0].headers, name);
      if here.Some? then here else Nearest(key, ancestors[1..], defaults, name)
  }

  /** The defaults count only for a walk that reaches a workspace. */
  function DefaultsAbove(ancestors: seq<Model>, defaults: seq<Header>): seq<Header> {
    if ancestors != [] && ancestors[|ancestors| - 1].Workspace? then defaults else []
  }

  lemma {:induction false} LastNamedOfTwo(key: string -> string, a: seq<Header>, b: seq<Header>, name: string)
    ensures LastNamed(key, a + b, name) ==
            if LastNamed(key, b, name).Some? then LastNamed(key, b, name) else LastNamed(key, a, name)
    decreases |b|
  {
    if b == [] {
      assert a + b == a;
    } else {
      assert (a + b)[..|a + b| - 1] == a + b[..|b| - 1];
      LastNamedOfTwo(key, a, b[..|b| - 1], name);
    }
  }

  /** The inherited header of a name is the nearest one, in spite of the workspace's headers being
      listed twice. */
  lemma {:induction false} InheritedIsNearest(
    key: string -> string, lib: Library, defaults: seq<Header>, m: Model, d: nat, name: string)
    requires WellFormed(lib) && WellPlaced(lib, m) && m.Nested? && AncestorsEnd(lib, m, d)
    ensures HeadersEnd(lib, m, d)
    ensures var ancestors := ModelAncestors(lib, m, d);
            LastNamed(key, AllHeaders(lib, defaults, m, d), name) ==
            Nearest(key, ancestors, DefaultsAbove(ancestors, defaults), name)
    decreases d
  {
    hide Find, WellPlaced, WellFormed, InFolder;
    WalksEndTogether(lib, m, d);
    if d > 0 {
      ParentsAgree(lib, m);
      ParentWellPlaced(lib, m);
      var up := NextAncestor(lib, m).value;
      var rest := ModelAncestors(lib, up, d - 1);
      assert ModelAncestors(lib, m, d) == [up] + rest;
      LastNamedOfTwo(key, AllHeaders(lib, defaults, up, d - 1), up.headers, name);
      if up.Workspace? {
        LastNamedOfTwo(key, defaults, up.headers, name);
        assert d == 1;
      } else {
        InheritedIsNearest(key, lib, defaults, up, d - 1, name);
      }
    }
  }

  /** The names in the order in which they first appear. */
  function NamesInOrder(key: string -> string, hs: seq<Header>): seq<string> {
    if hs == [] then []
    else
      var before, name := NamesInOrder(key, hs[..|hs| - 1]), key(hs[|hs| - 1].name);
      if name in before then before else before + [name]
  }

  lemma {:induction false} NamesOnceEach(key: string -> string, hs: seq<Header>)
    ensures Distinct(NamesInOrder(key, hs))
    ensures forall name :: name in NamesInOrder(key, hs) <==> LastNamed(key, hs, name).Some?
  {
    if hs != [] { NamesOnceEach(key, hs[..|hs| - 1]); }
  }

  /** One header for each name, the last of its name. */
  ghost predicate OnePerName(key: string -> string, hs: seq<Header>, r: seq<Header>) {
    var names := NamesInOrder(key, hs);
    && |r| == |names|
    && forall k :: 0 <= k < |r| ==> LastNamed(key, hs, names[k]) == Some(r[k])
  }

  /** The headers shown as inherited by m: a workspace inherits the defaults, and everything else
      what lies above it with one header per name. A map in the code holds the names in the order
      of their first use, a later header replacing an earlier one in its place. */
  method InheritedHeaders(key: string -> string, lib: Library, defaults: seq<Header>, base: Option<Model>, ghost d: nat)
    returns (r: seq<Header>)
    requires base.Some? ==> HeadersEnd(lib, base.value, d)
    ensures base.None? ==> r == []
    ensures base.Some? && base.value.Workspace? ==> r == defaults
    ensures base.Some? && base.value.Nested? ==> OnePerName(key, AllHeaders(lib, defaults, base.value, d), r)
  {
    if base.None? { return []; }
    if base.value.Workspace? { return defaults; }
    hide NamesInOrder, LastNamed, AllHeaders, HeadersEnd, Collected, OnePerName;
    var all := CollectHeaders(lib, defaults, base.value, d);
    var names: seq<string>, headersByName: map<string, Header> := [], map[];
    CollectedStart(key);
    for i := 0 to |all|
      invariant Collected(key, all[..i], names, headersByName)
    {
      var name := key(all[i].name);
      CollectedPush(key, all, i, names, headersByName);
      if name !in names { names := names + [name]; }
      headersByName := headersByName[name := all[i]];
    }
    assert all[..|all|] == all;
    CollectedShown(key, all, names, headersByName);
    r := seq(|names|, k requires 0 <= k < |names| && names[k] in headersByName => headersByName[names[k]]);
  }

  /** What the map holds after the headers hs: each name with the last of its headers. */
  ghost predicate Collected(
    key: string -> string, hs: seq<Header>, names: seq<string>, headersByName: map<string, Header>)
  {
    && names == NamesInOrder(key, hs)
    && (forall name :: name in headersByName <==> name in names)
    && forall name :: name in names ==> LastNamed(key, hs, name) == Some(headersByName[name])
  }

  lemma CollectedStart(key: string -> string)
    ensures Collected(key, [], [], map[])
  {
  }

  lemma CollectedPush(
    key: string -> string, all: seq<Header>, i: nat, names: seq<string>, headersByName: map<string, Header>)
    requires i < |all| && Collected(key, all[..i], names, headersByName)
    ensures var name := key(all[i].name);
            Collected(key, all[..i + 1], if name in names then names else names + [name], headersByName[name := all[i]])
  {
    hide NamesInOrder, LastNamed;
    var name := key(all[i].name);
    var after := if name in names then names else names + [name];
    forall other
      ensures other in after <==> other in names || other == name
    {
    }
    forall other | other in after
      ensures LastNamed(key, all[..i + 1], other) == Some(headersByName[name := all[i]][other])
    {
      NamedPush(key, all, i, other);
    }
    NamedPush(key, all, i, name);
  }

  lemma CollectedShown(
    key: string -> string, hs: seq<Header>, names: seq<string>, headersByName: map<string, Header>)
    requires Collected(key, hs, names, headersByName)
    ensures forall k :: 0 <= k < |names| ==> names[k] in headersByName
    ensures forall r :: |r| == |names| && (forall k :: 0 <= k < |r| ==> r[k] == headersByName[names[k]]) ==>
                        OnePerName(key, hs, r)
  {
    hide NamesInOrder, LastNamed;
  }

  lemma NamedPush(key: string -> string, all: seq<Header>, i: nat, other: string)
    requires i < |all|
    ensures var before, name := NamesInOrder(key, all[..i]), key(all[i].name);
            NamesInOrder(key, all[..i + 1]) == if name in before then before else before + [name]
    ensures LastNamed(key, all[..i + 1], other) ==
            if key(all[i].name) == other then Some(all[i]) else LastNamed(key, all[..i], other)
  {
    var front := all[..i + 1];
    assert front[..i] == all[..i] && front[i] == all[i];
  }

  method CollectHeaders(lib: Library, defaults: seq<Header>, m: Model, ghost d: nat) returns (all: seq<Header>)
    requires HeadersEnd(lib, m, d)
    ensures all == AllHeaders(lib, defaults, m, d)
    decreases d
  {
    if m.Workspace? { return defaults + m.headers; }
    var up := Parent(lib, m);
    if up.None? { return []; }
    var headers := CollectHeaders(lib, defaults, up.value, d - 1);
    all := headers + up.value.headers;
  }

  /** The whole answer: on a well-formed library without cycles the headers shown are one per name,
      each the nearest of its name above m. */
  lemma {:induction false} ShownHeadersAreNearest(
    key: string -> string, lib: Library, defaults: seq<Header>, m: Model, d: nat, shown: seq<Header>)
    requires WellFormed(lib) && WellPlaced(lib, m) && m.Nested? && AncestorsEnd(lib, m, d)
    requires HeadersEnd(lib, m, d) && OnePerName(key, AllHeaders(lib, defaults, m, d), shown)
    ensures var ancestors := ModelAncestors(lib, m, d);
            && (forall j, k :: 0 <= j < k < |shown| ==> key(shown[j].name) != key(shown[k].name))
            && forall h :: h in shown <==>
                           Nearest(key, ancestors, DefaultsAbove(ancestors, defaults), key(h.name)) == Some(h)
  {
    var all, ancestors := AllHeaders(lib, defaults, m, d), ModelAncestors(lib, m, d);
    var names := NamesInOrder(key, all);
    NamesOnceEach(key, all);
    forall k | 0 <= k < |shown|
      ensures key(shown[k].name) == names[k]
    {
      LastNamedHasName(key, all, names[k]);
    }
    forall h
      ensures h in shown <==>
              Nearest(key, ancestors, DefaultsAbove(ancestors, defaults), key(h.name)) == Some(h)
    {
      InheritedIsNearest(key, lib, defaults, m, d, key(h.name));
      if LastNamed(key, all, key(h.name)) == Some(h) {
        var k :| 0 <= k < |names| && names[k] == key(h.name);
        assert shown[k] == h;
      }
    }
  }

  lemma {:induction false} LastNamedHasName(key: string -> string, hs: seq<Header>, name: string)
    ensures LastNamed(key, hs, name).Some? ==> key(LastNamed(key, hs, name).value.name) == name
  {
    if hs != [] { LastNamedHasName(key, hs[..|hs| - 1], name); }
  }

  // ---------------------------------------------------------------- authentication

  function FirstWithAuth(models: seq<Model>): Option<Model> {
    if models == [] then None
    else if models[0].auth.Some? then Some(models[0]) else FirstWithAuth(models[1..])
  }

  lemma {:induction false} AuthenticationIsFirst(lib: Library, m: Model, d: nat)
    requires WellFormed(lib) && WellPlaced(lib, m) && AncestorsEnd(lib, m, d)
    ensures exists e: nat :: AuthenticationEnds(lib, m, e)
    ensures forall e: nat :: AuthenticationEnds(lib, m, e) ==>
                               InheritedAuthentication(lib, m, e) == FirstWithAuth([m] + ModelAncestors(lib, m, d))
    decreases d
  {
    ParentsAgree(lib, m);
    var above := ModelAncestors(lib, m, d);
    assert ([m] + above)[1..] == above;
    if m.auth.Some? || d == 0 {
      assert AuthenticationEnds(lib, m, 0);
    } else {
      ParentWellPlaced(lib, m);
      var up := NextAncestor(lib, m).value;
      AuthenticationIsFirst(lib, up, d - 1);
      var e: nat :| AuthenticationEnds(lib, up, e);
      assert AuthenticationEnds(lib, m, e + 1);
    }
  }

  // ---------------------------------------------------------------- the same, by the fields of models and headers

  /** m is the first of the models with that id. */
  ghost predicate FirstWith(models: seq<Model>, id: string, m: Model) {
    exists k :: 0 <= k < |models| && models[k] == m && m.id == id && forall j :: 0 <= j < k ==> models[j].id != id
  }

  lemma FirstInTail(models: seq<Model>, id: string, m: Model)
    requires models != [] && models[0].id != id
    ensures FirstWith(models, id, m) <==> FirstWith(models[1..], id, m)
  {
    var tail := models[1..];
    if k :| 0 <= k < |tail| && tail[k] == m && m.id == id && forall j :: 0 <= j < k ==> tail[j].id != id {
      assert models[k + 1] == m && forall j :: 0 < j < k + 1 ==> models[j] == tail[j - 1];
    }
    if k :| 0 <= k < |models| && models[k] == m && m.id == id && forall j :: 0 <= j < k ==> models[j].id != id {
      assert tail[k - 1] == m && forall j :: 0 <= j < k - 1 ==> tail[j] == models[j + 1];
    }
  }

  lemma FirstAtHead(models: seq<Model>, id: string, m: Model)
    requires models != [] && models[0].id == id
    ensures FirstWith(models, id, m) <==> m == models[0]
  {
    if m == models[0] { assert models[0] == m && m.id == id; }
  }

  lemma {:induction false} FindSpelled(models: seq<Model>, id: string)
    ensures forall m :: Find(models, id) == Some(m) <==> FirstWith(models, id, m)
    ensures Find(models, id).None? <==> forall m <- models :: m.id != id
  {
    if models != [] {
      assert models == [models[0]] + models[1..];
      FindSpelled(models[1..], id);
      forall m
        ensures Find(models, id) == Some(m) <==> FirstWith(models, id, m)
      {
        hide FirstWith;
        if models[0].id == id { FirstAtHead(models, id, m); } else { FirstInTail(models, id, m); }
      }
    }
  }

  /** Where the two look-ups go. The headers and the authentication take the first folder or workspace
      with the folder's id, or with the workspace's id if there is no folder id; the ancestors take the
      folder, and fall back on the workspace. */
  lemma LookUpsSpelled(lib: Library, m: Model, p: Model)
    ensures Parent(lib, m) == Some(p) <==>
            m.Nested? &&
            if m.folderId.Some? && m.folderId.value != ""
            then FirstWith(lib.folders + lib.workspaces, m.folderId.value, p)
            else FirstWith(lib.folders + lib.workspaces, m.workspaceId, p)
    ensures NextAncestor(lib, m) == Some(p) <==>
            && m.Nested?
            && var inFolder := m.folderId.Some? && m.folderId.value != "" &&
                               exists f :: f in lib.folders && f.id == m.folderId.value;
               if inFolder then FirstWith(lib.folders, m.folderId.value, p)
               else m.workspaceId != "" && FirstWith(lib.workspaces, m.workspaceId, p)
  {
    hide Find, FirstWith;
    if m.Nested? {
      FindSpelled(lib.folders + lib.workspaces, m.workspaceId);
      FindSpelled(lib.workspaces, m.workspaceId);
      if m.folderId.Some? {
        FindSpelled(lib.folders + lib.workspaces, m.folderId.value);
        FindSpelled(lib.folders, m.folderId.value);
      }
    }
  }

  /** h is the last of the headers with that name. */
  ghost predicate LastWith(key: string -> string, hs: seq<Header>, name: string, h: Header) {
    exists k :: && 0 <= k < |hs| && hs[k] == h && key(h.name) == name
                && forall j :: k < j < |hs| ==> key(hs[j].name) != name
  }

  predicate NoneNamed(key: string -> string, hs: seq<Header>, name: string) {
    forall h <- hs :: key(h.name) != name
  }

  lemma LastInFront(key: string -> string, front: seq<Header>, x: Header, name: string, h: Header)
    requires key(x.name) != name
    ensures LastWith(key, front + [x], name, h) <==> LastWith(key, front, name, h)
  {
    var n, hs := |front|, front + [x];
    if k :| 0 <= k < n && front[k] == h && key(h.name) == name && forall j :: k < j < n ==> key(front[j].name) != name {
      assert hs[k] == h && forall j :: k < j < n ==> hs[j] == front[j];
    }
    if k :| 0 <= k <= n && hs[k] == h && key(h.name) == name && forall j :: k < j <= n ==> key(hs[j].name) != name {
      assert front[k] == h && forall j :: k < j < n ==> hs[j] == front[j];
    }
  }

  lemma LastAtEnd(key: string -> string, front: seq<Header>, x: Header, name: string, h: Header)
    requires key(x.name) == name
    ensures LastWith(key, front + [x], name, h) <==> h == x
  {
    assert (front + [x])[|front|] == x;
  }

  lemma {:induction false} LastNamedSpelled(key: string -> string, hs: seq<Header>, name: string)
    ensures forall h :: LastNamed(key, hs, name) == Some(h) <==> LastWith(key, hs, name, h)
    ensures LastNamed(key, hs, name).None? <==> NoneNamed(key, hs, name)
  {
    if hs != [] {
      var front, last := hs[..|hs| - 1], hs[|hs| - 1];
      assert hs == front + [last];
      LastNamedSpelled(key, front, name);
      assert NoneNamed(key, hs, name) <==> NoneNamed(key, front, name) && key(last.name) != name;
      hide NoneNamed;
      forall h
        ensures LastNamed(key, hs, name) == Some(h) <==> LastWith(key, hs, name, h)
      {
        hide LastWith;
        if key(last.name) == name { LastAtEnd(key, front, last, name, h); }
        else { LastInFront(key, front, last, name, h); }
      }
    }
  }

  /** The nearest header of a name: the last in the first of the ancestors that has one, and else the
      last default. */
  lemma {:induction false} NearestSpelled(
    key: string -> string, ancestors: seq<Model>, defaults: seq<Header>, name: string, h: Header)
    ensures Nearest(key, ancestors, defaults, name) == Some(h) <==>
            || (exists k :: && 0 <= k < |ancestors| && LastWith(key, ancestors[k].headers, name, h)
                            && forall j :: 0 <= j < k ==> NoneNamed(key, ancestors[j].headers, name))
            || ((forall a <- ancestors :: NoneNamed(key, a.headers, name)) && LastWith(key, defaults, name, h))
  {
    hide LastNamed, LastWith, NoneNamed;
    if ancestors == [] {
      LastNamedSpelled(key, defaults, name);
    } else {
      var tail := ancestors[1..];
      assert ancestors == [ancestors[0]] + tail;
      LastNamedSpelled(key, ancestors[0].headers, name);
      NearestSpelled(key, tail, defaults, name, h);
      if NoneNamed(key, ancestors[0].headers, name) {
        NearestFurther(key, ancestors, name, h);
      } else {
        SomeNamed(key, ancestors[0].headers, name, h);
      }
    }
  }

  lemma SomeNamed(key: string -> string, hs: seq<Header>, name: string, h: Header)
    ensures LastWith(key, hs, name, h) ==> !NoneNamed(key, hs, name)
  {
  }

  /** With nothing of that name in the first ancestor, the others decide. */
  lemma NearestFurther(key: string -> string, ancestors: seq<Model>, name: string, h: Header)
    requires ancestors != [] && NoneNamed(key, ancestors[0].headers, name)
    ensures (exists k :: && 0 <= k < |ancestors| && LastWith(key, ancestors[k].headers, name, h)
                         && forall j :: 0 <= j < k ==> NoneNamed(key, ancestors[j].headers, name)) <==>
            var tail := ancestors[1..];
            exists k :: && 0 <= k < |tail| && LastWith(key, tail[k].headers, name, h)
                        && forall j :: 0 <= j < k ==> NoneNamed(key, tail[j].headers, name)
  {
    hide LastWith, NoneNamed;
    var tail := ancestors[1..];
    SomeNamed(key, ancestors[0].headers, name, h);
    assert forall j :: 0 <= j < |tail| ==> tail[j] == ancestors[j + 1];
    if k :| 0 <= k < |ancestors| && LastWith(key, ancestors[k].headers, name, h)
            && forall j :: 0 <= j < k ==> NoneNamed(key, ancestors[j].headers, name) {
      assert tail[k - 1] == ancestors[k];
    }
    if k :| 0 <= k < |tail| && LastWith(key, tail[k].headers, name, h)
            && forall j :: 0 <= j < k ==> NoneNamed(key, tail[j].headers, name) {
      assert ancestors[k + 1] == tail[k];
      assert forall j :: 0 < j < k + 1 ==> ancestors[j] == tail[j - 1];
    }
  }

  /** The header at k is the first with that name. */
  ghost predicate FirstUse(key: string -> string, hs: seq<Header>, name: string, k: nat) {
    k < |hs| && key(hs[k].name) == name && forall j :: 0 <= j < k ==> key(hs[j].name) != name
  }

  /** The names of hs, each once, in the order of their first use: firsts[k] is where names[k] comes
      up first. */
  ghost predicate FirstUses(key: string -> string, hs: seq<Header>, names: seq<string>, firsts: seq<nat>) {
    && |firsts| == |names|
    && (forall h <- hs :: key(h.name) in names)
    && (forall k :: 0 <= k < |names| ==> FirstUse(key, hs, names[k], firsts[k]))
    && (forall j, k :: 0 <= j < k < |names| ==> firsts[j] < firsts[k])
  }

  lemma {:induction false} NamesSpelled(key: string -> string, hs: seq<Header>) returns (firsts: seq<nat>)
    ensures FirstUses(key, hs, NamesInOrder(key, hs), firsts)
  {
    if hs == [] {
      firsts := [];
    } else {
      hide FirstUses;
      var front, last := hs[..|hs| - 1], hs[|hs| - 1];
      assert hs == front + [last];
      var before := NamesSpelled(key, front);
      var names, name := NamesInOrder(key, front), key(last.name);
      firsts := if name in names then before else before + [|front|];
      FirstUsesPush(key, front, last, names, before);
    }
  }

  lemma FirstUsesPush(key: string -> string, front: seq<Header>, x: Header, names: seq<string>, firsts: seq<nat>)
    requires FirstUses(key, front, names, firsts)
    ensures if key(x.name) in names then FirstUses(key, front + [x], names, firsts)
            else FirstUses(key, front + [x], names + [key(x.name)], firsts + [|front|])
  {
    hide FirstUse;
    forall k | 0 <= k < |names|
      ensures FirstUse(key, front + [x], names[k], firsts[k]) && firsts[k] < |front|
    {
      FirstUsePush(key, front, x, names[k], firsts[k]);
    }
    if key(x.name) !in names { NewName(key, front, x); }
  }

  lemma FirstUsePush(key: string -> string, front: seq<Header>, x: Header, name: string, k: nat)
    requires FirstUse(key, front, name, k)
    ensures FirstUse(key, front + [x], name, k) && k < |front|
  {
  }

  lemma NewName(key: string -> string, front: seq<Header>, x: Header)
    requires forall h <- front :: key(h.name) != key(x.name)
    ensures FirstUse(key, front + [x], key(x.name), |front|)
  {
  }

  /** The headers of the models, the last model's first. */
  function HeadersDown(models: seq<Model>): seq<Header> {
    if models == [] then [] else HeadersDown(models[1..]) + models[0].headers
  }

  /** What the walk for headers lists: the headers of the models that it passes, outermost first,
      behind the defaults and once more the workspace's own if it ends at a workspace. */
  lemma {:induction false} AllHeadersSpelled(lib: Library, defaults: seq<Header>, m: Model, d: nat)
    requires HeadersEnd(lib, m, d) && m.Nested?
    ensures var models := HeaderModels(lib, m, d);
            AllHeaders(lib, defaults, m, d) ==
            (if models != [] && models[d - 1].Workspace? then defaults + models[d - 1].headers else []) +
            HeadersDown(models)
    decreases d
  {
    hide Find, Parent;
    if d > 0 {
      var up := Parent(lib, m).value;
      var rest, models := HeaderModels(lib, up, d - 1), HeaderModels(lib, m, d);
      assert models == [up] + rest && models[1..] == rest;
      if up.Workspace? {
        assert d == 1 by { WorkspaceIsTop(lib, up); }
        assert HeadersDown(rest) == [];
        assert [] + up.headers == up.headers;
      } else {
        AllHeadersSpelled(lib, defaults, up, d - 1);
        if d > 1 { assert models[d - 1] == rest[d - 2]; }
        hide HeadersDown, AllHeaders, HeaderModels;
        HeadersDownUnfold(models);
        AllHeadersUnfold(lib, defaults, m, d);
        var base := if rest != [] && rest[d - 2].Workspace? then defaults + rest[d - 2].headers else [];
        assert (base + HeadersDown(rest)) + up.headers == base + (HeadersDown(rest) + up.headers);
      }
    }
  }

  lemma WorkspaceIsTop(lib: Library, m: Model)
    ensures m.Workspace? ==> Parent(lib, m).None?
  {
  }

  lemma HeadersDownUnfold(models: seq<Model>)
    ensures models != [] ==> HeadersDown(models) == HeadersDown(models[1..]) + models[0].headers
  {
  }

  lemma AllHeadersUnfold(lib: Library, defaults: seq<Header>, m: Model, d: nat)
    requires HeadersEnd(lib, m, d) && m.Nested? && d > 0
    ensures var up := Parent(lib, m).value;
            AllHeaders(lib, defaults, m, d) == AllHeaders(lib, defaults, up, d - 1) + up.headers
  {
  }

  /** The first model that has an authentication of its own. */
  lemma {:induction false} FirstWithAuthSpelled(models: seq<Model>, m: Model)
    ensures FirstWithAuth(models) == Some(m) <==>
            exists k :: && 0 <= k < |models| && models[k] == m && m.auth.Some?
                        && forall j :: 0 <= j < k ==> models[j].auth.None?
  {
    if models != [] {
      var tail := models[1..];
      FirstWithAuthSpelled(tail, m);
      assert forall j :: 0 <= j < |tail| ==> tail[j] == models[j + 1];
      if FirstWithAuth(models) == Some(m) {
        if models[0].auth.Some? {
          assert models[0] == m;
        } else {
          var k :| 0 <= k < |tail| && tail[k] == m && m.auth.Some? && forall j :: 0 <= j < k ==> tail[j].auth.None?;
          assert models[k + 1] == m && forall j :: 0 < j < k + 1 ==> models[j] == tail[j - 1];
        }
      }
      if k :| 0 <= k < |models| && models[k] == m && m.auth.Some? && forall j :: 0 <= j < k ==> models[j].auth.None? {
        if k > 0 { assert tail[k - 1] == m; }
      }
    }
  }
}
