/** buildExampleFromSchema: a placeholder message for a schema whose references may form cycles. */
module SchemaExample {
  import opened Wrappers

  datatype Json =
    | Null
    | Bool(value: bool)
    | Num(n: int)
    | Str(s: string)
    | Arr(items: seq<Json>)
    | Obj(fields: seq<(string, Json)>)

  /** A schema object, or something else in a schema's place. */
  datatype Schema =
    | NotObject(isNull: bool)
    | Schema(
        ref: Option<string>, enum: Option<seq<Json>>, kind: string, format: string,
        properties: Option<seq<(string, Schema)>>, items: Option<Schema>, additional: Option<Schema>,
        defs: map<string, Schema>)

  const DEFS_PREFIX := "#/$defs/"
  const ROOT_REF := "#"
  const STRING_NUMBER_FORMATS := ["int64", "uint64", "sint64", "fixed64", "sfixed64"]
  const MAX_NODES: nat := 5000

  /** schema == null, absent included. */
  predicate Missing(s: Option<Schema>) {
    s.None? || (s.value.NotObject? && s.value.isNull)
  }

  function ResolveRef(ref: string, root: Schema): Option<Schema> {
    if ref == ROOT_REF then (if root.NotObject? && root.isNull then None else Some(root))
    else if !(DEFS_PREFIX <= ref) || root.NotObject? then None
    else
      var name := ref[|DEFS_PREFIX|..];
      if name in root.defs && !Missing(Some(root.defs[name])) then Some(root.defs[name]) else None
  }

  /** now is the current time, which a date-time field shows. */
  function BuildString(format: string, now: string): string {
    if format == "date-time" then now
    else if format == "duration" then "0s"
    else if format in STRING_NUMBER_FORMATS then "0"
    else ""
  }

  /** The value of the first enum member, or an empty string. */
  function FirstOf(enum: seq<Json>): Json {
    if enum == [] || enum[0] == Null then Str("") else enum[0]
  }

  /** "#" is the root itself and "#/$defs/name" what the root defines under that name; anything else,
      and a definition that is null, resolves to nothing. */
  lemma ResolveRefSpelled(ref: string, root: Schema, d: Schema)
    ensures ResolveRef(ref, root) == Some(d) <==>
            && !(d.NotObject? && d.isNull)
            && (|| (ref == "#" && d == root)
                || exists name ::
                     ref == "#/$defs/" + name && root.Schema? && name in root.defs && root.defs[name] == d)
  {
    if ResolveRef(ref, root) == Some(d) && ref != "#" {
      assert ref == "#/$defs/" + ref[|DEFS_PREFIX|..];
    }
    if name :| ref == "#/$defs/" + name && root.Schema? && name in root.defs && root.defs[name] == d {
      assert ref[|DEFS_PREFIX|..] == name;
    }
  }

  /** The value for a schema, and what is left of the budget. */
  function Build(s: Schema, root: Schema, refPath: set<string>, budget: nat, now: string): (r: (Json, nat))
    ensures r.1 <= budget
    decreases budget, 0
  {
    if s.NotObject? || budget == 0 then (Null, budget)
    else
      var left := budget - 1;
      if s.ref.Some? then
        var resolved := ResolveRef(s.ref.value, root);
        if s.ref.value in refPath || resolved.None? then (Obj([]), left)
        else Build(resolved.value, root, refPath + {s.ref.value}, left, now)
      else if s.enum.Some? then (FirstOf(s.enum.value), left)
      else if s.kind == "object" then
        if s.properties.Some? then
          var (fields, rest) := BuildFields(s.properties.value, root, refPath, left, now);
          (Obj(fields), rest)
        else if !Missing(s.additional) then
          var (v, rest) := Build(s.additional.value, root, refPath, left, now);
          (Obj([("key", v)]), rest)
        else (Obj([]), left)
      else if s.kind == "array" then
        if Missing(s.items) then (Arr([]), left)
        else
          var (v, rest) := Build(s.items.value, root, refPath, left, now);
          (Arr([v]), rest)
      else if s.kind == "string" then (Str(BuildString(s.format, now)), left)
      else if s.kind == "number" then (Num(0), left)
      else if s.kind == "boolean" then (Bool(false), left)
      else (Null, left)
  }

  /** The fields for a list of properties, each built with what the ones before it left. */
  function BuildFields(props: seq<(string, Schema)>, root: Schema, refPath: set<string>, budget: nat, now: string)
    : (r: (seq<(string, Json)>, nat))
    ensures r.1 <= budget && |r.0| == |props|
    ensures forall k :: 0 <= k < |props| ==> r.0[k].0 == props[k].0
    decreases budget, |props|
  {
    if props == [] then ([], budget)
    else
      var n := |props| - 1;
      var (fields, left) := BuildFields(props[..n], root, refPath, budget, now);
      var (v, rest) := Build(props[n].1, root, refPath, left, now);
      (fields + [(props[n].0, v)], rest)
  }

  class Budget {
    var remaining: nat

    constructor (remaining: nat)
      ensures this.remaining == remaining
    {
      this.remaining := remaining;
    }
  }

  method BuildValue(s: Schema, root: Schema, refPath: set<string>, budget: Budget, now: string) returns (r: Json)
    modifies budget
    ensures (r, budget.remaining) == Build(s, root, refPath, old(budget.remaining), now)
    decreases budget.remaining, 0
  {
    if s.NotObject? || budget.remaining == 0 {
      return Null;
    }
    budget.remaining := budget.remaining - 1;
    if s.ref.Some? {
      if s.ref.value in refPath { return Obj([]); }
      var resolved := ResolveRef(s.ref.value, root);
      if resolved.None? { return Obj([]); }
      r := BuildValue(resolved.value, root, refPath + {s.ref.value}, budget, now);
      return;
    }
    if s.enum.Some? {
      return FirstOf(s.enum.value);
    }
    match s.kind {
      case "object" =>
        r := BuildObject(s, root, refPath, budget, now);
      case "array" =>
        if Missing(s.items) {
          r := Arr([]);
        } else {
          var v := BuildValue(s.items.value, root, refPath, budget, now);
          r := Arr([v]);
        }
      case "string" => r := Str(BuildString(s.format, now));
      case "number" => r := Num(0);
      case "boolean" => r := Bool(false);
      case _ => r := Null;
    }
  }

  method BuildObject(s: Schema, root: Schema, refPath: set<string>, budget: Budget, now: string) returns (r: Json)
    requires s.Schema? && s.ref.None? && s.enum.None? && s.kind == "object"
    modifies budget
    ensures (r, budget.remaining) == Build(s, root, refPath, old(budget.remaining) + 1, now)
    decreases budget.remaining, 1
  {
    if s.properties.Some? {
      var props := s.properties.value;
      var example: seq<(string, Json)> := [];
      for k := 0 to |props|
        invariant budget.remaining <= old(budget.remaining)
        invariant (example, budget.remaining) == BuildFields(props[..k], root, refPath, old(budget.remaining), now)
      {
        assert props[..k + 1][..k] == props[..k] && props[..k + 1][k] == props[k];
        var v := BuildValue(props[k].1, root, refPath, budget, now);
        example := example + [(props[k].0, v)];
      }
      assert props[..|props|] == props;
      return Obj(example);
    }
    if !Missing(s.additional) {
      var v := BuildValue(s.additional.value, root, refPath, budget, now);
      return Obj([("key", v)]);
    }
    return Obj([]);
  }

  method BuildExampleFromSchema(schema: Schema, now: string) returns (r: Json)
    ensures r == Build(schema, schema, {"#"}, 5000, now).0
  {
    var budget := new Budget(MAX_NODES);
    r := BuildValue(schema, schema, {ROOT_REF}, budget, now);
  }

  // ---------------------------------------------------------------- the budget only cuts off

  /** As long as budget is left over, a larger budget gives the same value and is used as much. */
  lemma {:induction false} BudgetIsOnlyALimit(
    s: Schema, root: Schema, refPath: set<string>, b: nat, extra: nat, now: string)
    requires Build(s, root, refPath, b, now).1 > 0
    ensures Build(s, root, refPath, b + extra, now) ==
            (Build(s, root, refPath, b, now).0, Build(s, root, refPath, b, now).1 + extra)
    decreases b, 0
  {
    if s.Schema? {
      if s.ref.Some? {
        var resolved := ResolveRef(s.ref.value, root);
        if s.ref.value !in refPath && resolved.Some? {
          BudgetIsOnlyALimit(resolved.value, root, refPath + {s.ref.value}, b - 1, extra, now);
        }
      } else if s.enum.None? && s.kind == "object" {
        if s.properties.Some? {
          FieldsBudgetIsOnlyALimit(s.properties.value, root, refPath, b - 1, extra, now);
        } else if !Missing(s.additional) {
          BudgetIsOnlyALimit(s.additional.value, root, refPath, b - 1, extra, now);
        }
      } else if s.enum.None? && s.kind == "array" && !Missing(s.items) {
        BudgetIsOnlyALimit(s.items.value, root, refPath, b - 1, extra, now);
      }
    }
  }

  lemma {:induction false} FieldsBudgetIsOnlyALimit(
    props: seq<(string, Schema)>, root: Schema, refPath: set<string>, b: nat, extra: nat, now: string)
    requires BuildFields(props, root, refPath, b, now).1 > 0
    ensures BuildFields(props, root, refPath, b + extra, now) ==
            (BuildFields(props, root, refPath, b, now).0, BuildFields(props, root, refPath, b, now).1 + extra)
    decreases b, |props|
  {
    if props != [] {
      var n := |props| - 1;
      var left := BuildFields(props[..n], root, refPath, b, now).1;
      FieldsBudgetIsOnlyALimit(props[..n], root, refPath, b, extra, now);
      BudgetIsOnlyALimit(props[n].1, root, refPath, left, extra, now);
    }
  }

  /** What stands for a schema that says nothing that can be shown. */
  lemma NothingToShow(s: Schema, root: Schema, refPath: set<string>, b: nat, now: string)
    requires b > 0
    ensures s.NotObject? ==> Build(s, root, refPath, b, now) == (Null, b)
    ensures s.Schema? && s.ref.Some? && (forall d :: ResolveRef(s.ref.value, root) != Some(d)) ==>
              Build(s, root, refPath, b, now) == (Obj([]), b - 1)
    ensures s.Schema? && s.ref.None? && s.enum.Some? && (s.enum.value == [] || s.enum.value[0] == Null) ==>
              Build(s, root, refPath, b, now) == (Str(""), b - 1)
  {
    if s.Schema? && s.ref.Some? {
      var r := ResolveRef(s.ref.value, root);
      if r.Some? { assert r == Some(r.value); }
    }
  }

  // ---------------------------------------------------------------- conformance

  /** b is used directly by a. */
  ghost predicate Uses(a: Schema, b: Schema, root: Schema) {
    a.Schema? &&
    if a.ref.Some? then ResolveRef(a.ref.value, root) == Some(b)
    else
      || (a.properties.Some? && exists p :: p in a.properties.value && p.1 == b)
      || a.additional == Some(b) || a.items == Some(b)
  }

  /** b is reached from a in n steps. */
  ghost predicate ReachesIn(a: Schema, b: Schema, root: Schema, n: nat)
    decreases n
  {
    if n == 0 then a == b else exists c :: ReachesIn(a, c, root, n - 1) && Uses(c, b, root)
  }

  ghost predicate Reaches(a: Schema, b: Schema, root: Schema) {
    exists n: nat :: ReachesIn(a, b, root, n)
  }

  lemma ReachesNext(a: Schema, b: Schema, c: Schema, root: Schema)
    requires Reaches(a, b, root) && Uses(b, c, root)
    ensures Reaches(a, c, root)
  {
    var n: nat :| ReachesIn(a, b, root, n);
    assert ReachesIn(a, c, root, n + 1);
  }

  predicate PlainObject(s: Schema) {
    s.Schema? && s.ref.None? && s.enum.None? && s.kind == "object"
  }

  /** References resolve, an enum has a value to show, and a reference that leads back to itself
      names an object, as a protobuf message that contains itself does. A schema may have any type
      or none: the gRPC layer gives google.protobuf.Empty no type at all. */
  ghost predicate WellFormed(root: Schema) {
    forall s :: Reaches(root, s, root) ==>
      && s.Schema?
      && (s.ref.Some? ==> ResolveRef(s.ref.value, root).Some?)
      && (s.ref.None? && s.enum.Some? ==> s.enum.value != [] && s.enum.value[0] != Null)
      && (s.ref.Some? && ResolveRef(s.ref.value, root).Some? && Reaches(ResolveRef(s.ref.value, root).value, s, root)
          ==> PlainObject(ResolveRef(s.ref.value, root).value))
  }

  /** Decimal digits that spell zero. */
  predicate Zero(text: string) {
    text != "" && forall c <- text :: c == '0'
  }

  /** Protobuf reads 64-bit integers from decimal digits, a duration from seconds, and a timestamp
      from a time. Every text stands for the default of its field: no text, the number zero, no
      time at all, or now where there is no such default. */
  predicate WellSpelled(format: string, text: string, now: string) {
    if format == "date-time" then text == now
    else if format in {"int64", "uint64", "sint64", "fixed64", "sfixed64"} then Zero(text)
    else if format == "duration" then text != "" && text[|text| - 1] == 's' && Zero(text[..|text| - 1])
    else text == ""
  }

  lemma BuiltStringIsWellSpelled(format: string, now: string)
    ensures WellSpelled(format, BuildString(format, now), now)
  {
    assert "0s"[..1] == "0";
  }

  /** v is the value of the schema beneath the references in path, after following n more at the
      top. An object has all the fields that the schema names, in their order, and an array or a map
      shows one entry if the schema says what entries are. Only a reference that is already on the
      path is cut off, by an empty object. Everything else has the default that protobuf gives it:
      an enum its first member, a number zero, a flag false. Without a type that is handled there is
      nothing to show. */
  ghost predicate ConformsIn(v: Json, s: Schema, root: Schema, path: set<string>, now: string, n: nat)
    decreases v, 0, n
  {
    s.Schema? &&
    if s.ref.Some? then
      && ResolveRef(s.ref.value, root).Some?
      && var t := ResolveRef(s.ref.value, root).value;
         if s.ref.value in path then v == Obj([]) && PlainObject(t)
         else n > 0 && ConformsIn(v, t, root, path + {s.ref.value}, now, n - 1)
    else if s.enum.Some? then s.enum.value != [] && v == s.enum.value[0]
    else if s.kind == "object" then
      v.Obj? &&
      if s.properties.Some? then
        && |v.fields| == |s.properties.value|
        && forall k :: 0 <= k < |v.fields| ==>
             && v.fields[k].0 == s.properties.value[k].0
             && Conforms(v.fields[k].1, s.properties.value[k].1, root, path, now)
      else
        if Missing(s.additional) then v.fields == []
        else
          && |v.fields| == 1 && v.fields[0].0 == "key"
          && Conforms(v.fields[0].1, s.additional.value, root, path, now)
    else if s.kind == "array" then
      v.Arr? &&
      if Missing(s.items) then v.items == []
      else |v.items| == 1 && Conforms(v.items[0], s.items.value, root, path, now)
    else if s.kind == "string" then v.Str? && WellSpelled(s.format, v.s, now)
    else if s.kind == "number" then v == Num(0)
    else if s.kind == "boolean" then v == Bool(false)
    else v == Null
  }

  ghost predicate Conforms(v: Json, s: Schema, root: Schema, path: set<string>, now: string)
    decreases v, 1, 0
  {
    exists n: nat :: ConformsIn(v, s, root, path, now, n)
  }

  /** Where the build stands: at a schema of the root, beneath every reference on the path. */
  ghost predicate At(s: Schema, root: Schema, refPath: set<string>) {
    Reaches(root, s, root) &&
    forall r :: r in refPath ==> ResolveRef(r, root).Some? && Reaches(ResolveRef(r, root).value, s, root)
  }

  lemma AtNext(s: Schema, t: Schema, root: Schema, refPath: set<string>)
    requires At(s, root, refPath) && Uses(s, t, root)
    ensures At(t, root, refPath)
  {
    hide Reaches, Uses;
    ReachesNext(root, s, t, root);
    forall r | r in refPath
      ensures ResolveRef(r, root).Some? && Reaches(ResolveRef(r, root).value, t, root)
    {
      ReachesNext(ResolveRef(r, root).value, s, t, root);
    }
  }

  /** Entering a reference adds it to what lies above. */
  lemma AtRef(s: Schema, t: Schema, root: Schema, refPath: set<string>)
    requires At(s, root, refPath) && s.Schema? && s.ref.Some? && ResolveRef(s.ref.value, root) == Some(t)
    ensures At(t, root, refPath + {s.ref.value})
  {
    AtNext(s, t, root, refPath);
    assert ReachesIn(t, t, root, 0);
  }

  lemma CutOffConforms(s: Schema, root: Schema, path: set<string>, now: string)
    requires s.Schema? && s.ref.Some? && s.ref.value in path && ResolveRef(s.ref.value, root).Some?
    requires PlainObject(ResolveRef(s.ref.value, root).value)
    ensures Conforms(Obj([]), s, root, path, now)
  {
    assert ConformsIn(Obj([]), s, root, path, now, 0);
  }

  lemma ConformsThroughRef(v: Json, s: Schema, t: Schema, root: Schema, path: set<string>, now: string)
    requires s.Schema? && s.ref.Some? && s.ref.value !in path && ResolveRef(s.ref.value, root) == Some(t)
    requires Conforms(v, t, root, path + {s.ref.value}, now)
    ensures Conforms(v, s, root, path, now)
  {
    var n: nat :| ConformsIn(v, t, root, path + {s.ref.value}, now, n);
    assert ConformsIn(v, s, root, path, now, n + 1);
  }

  /** When the budget is not used up, the value has everything that the schema asks for, everywhere
      inside it, down to the references that would lead round a cycle. */
  lemma {:induction false} BuildConforms(s: Schema, root: Schema, refPath: set<string>, b: nat, now: string)
    requires WellFormed(root) && At(s, root, refPath)
    requires Build(s, root, refPath, b, now).1 > 0
    ensures Conforms(Build(s, root, refPath, b, now).0, s, root, refPath, now)
    decreases b, 0
  {
    hide Reaches, Uses, ConformsIn;
    assert s.Schema?;
    var v := Build(s, root, refPath, b, now).0;
    if s.ref.Some? {
      var t := ResolveRef(s.ref.value, root).value;
      if s.ref.value in refPath {
        CutOffConforms(s, root, refPath, now);
      } else {
        AtRef(s, t, root, refPath);
        BuildConforms(t, root, refPath + {s.ref.value}, b - 1, now);
        ConformsThroughRef(v, s, t, root, refPath, now);
      }
    } else if s.enum.Some? {
      ScalarConforms(v, s, root, refPath, now);
    } else if s.kind == "object" {
      ObjectConforms(s, root, refPath, b, now);
    } else if s.kind == "array" {
      if !Missing(s.items) {
        AtNext(s, s.items.value, root, refPath) by { UsesItems(s, root); }
        BuildConforms(s.items.value, root, refPath, b - 1, now);
        ArrayConforms(v.items[0], s, root, refPath, now);
      } else {
        ScalarConforms(v, s, root, refPath, now);
      }
    } else {
      BuiltStringIsWellSpelled(s.format, now);
      ScalarConforms(v, s, root, refPath, now);
    }
  }

  lemma UsesItems(s: Schema, root: Schema)
    requires s.Schema? && s.ref.None?
    ensures s.items.Some? ==> Uses(s, s.items.value, root)
    ensures s.additional.Some? ==> Uses(s, s.additional.value, root)
    ensures s.properties.Some? ==> forall p :: p in s.properties.value ==> Uses(s, p.1, root)
  {
  }

  lemma ScalarConforms(v: Json, s: Schema, root: Schema, path: set<string>, now: string)
    requires s.Schema? && s.ref.None?
    requires if s.enum.Some? then s.enum.value != [] && v == s.enum.value[0]
             else match s.kind
                  case "string" => v.Str? && WellSpelled(s.format, v.s, now)
                  case "number" => v == Num(0)
                  case "boolean" => v == Bool(false)
                  case "array" => v == Arr([]) && Missing(s.items)
                  case "object" => v == Obj([]) && s.properties.None? && Missing(s.additional)
                  case _ => v == Null
    ensures Conforms(v, s, root, path, now)
  {
    assert ConformsIn(v, s, root, path, now, 0);
  }

  lemma ArrayConforms(v: Json, s: Schema, root: Schema, path: set<string>, now: string)
    requires s.Schema? && s.ref.None? && s.enum.None? && s.kind == "array" && !Missing(s.items)
    requires Conforms(v, s.items.value, root, path, now)
    ensures Conforms(Arr([v]), s, root, path, now)
  {
    assert ConformsIn(Arr([v]), s, root, path, now, 0);
  }

  lemma {:induction false} ObjectConforms(s: Schema, root: Schema, refPath: set<string>, b: nat, now: string)
    requires WellFormed(root) && At(s, root, refPath) && PlainObject(s)
    requires b > 0 && Build(s, root, refPath, b, now).1 > 0
    ensures Conforms(Build(s, root, refPath, b, now).0, s, root, refPath, now)
    decreases b - 1, 1 + if s.properties.Some? then |s.properties.value| else 0
  {
    hide Reaches, Uses, ConformsIn;
    UsesItems(s, root);
    if s.properties.Some? {
      var props := s.properties.value;
      forall p | p in props ensures At(p.1, root, refPath) { AtNext(s, p.1, root, refPath); }
      FieldsConform(props, root, refPath, b - 1, now);
      FieldsMakeObject(s, BuildFields(props, root, refPath, b - 1, now).0, root, refPath, now);
    } else if !Missing(s.additional) {
      AtNext(s, s.additional.value, root, refPath);
      BuildConforms(s.additional.value, root, refPath, b - 1, now);
      MapMakesObject(s, Build(s.additional.value, root, refPath, b - 1, now).0, root, refPath, now);
    } else {
      ScalarConforms(Obj([]), s, root, refPath, now);
    }
  }

  lemma FieldsMakeObject(s: Schema, fields: seq<(string, Json)>, root: Schema, path: set<string>, now: string)
    requires PlainObject(s) && s.properties.Some? && |fields| == |s.properties.value|
    requires forall k :: 0 <= k < |fields| ==>
               && fields[k].0 == s.properties.value[k].0
               && Conforms(fields[k].1, s.properties.value[k].1, root, path, now)
    ensures Conforms(Obj(fields), s, root, path, now)
  {
    assert ConformsIn(Obj(fields), s, root, path, now, 0);
  }

  lemma MapMakesObject(s: Schema, v: Json, root: Schema, path: set<string>, now: string)
    requires PlainObject(s) && s.properties.None? && !Missing(s.additional)
    requires Conforms(v, s.additional.value, root, path, now)
    ensures Conforms(Obj([("key", v)]), s, root, path, now)
  {
    assert ConformsIn(Obj([("key", v)]), s, root, path, now, 0);
  }

  lemma {:induction false} FieldsConform(
    props: seq<(string, Schema)>, root: Schema, refPath: set<string>, b: nat, now: string)
    requires WellFormed(root) && forall p :: p in props ==> At(p.1, root, refPath)
    requires BuildFields(props, root, refPath, b, now).1 > 0
    ensures var fields := BuildFields(props, root, refPath, b, now).0;
            forall k :: 0 <= k < |props| ==>
              fields[k].0 == props[k].0 && Conforms(fields[k].1, props[k].1, root, refPath, now)
    decreases b, |props|
  {
    hide At, WellFormed, Conforms;
    if props != [] {
      var n := |props| - 1;
      assert props[n] in props && forall p :: p in props[..n] ==> p in props;
      FieldsConform(props[..n], root, refPath, b, now);
      BuildConforms(props[n].1, root, refPath, BuildFields(props[..n], root, refPath, b, now).1, now);
    }
  }

  /** The values inside v, v among them, that are not null. */
  function Size(v: Json): nat
    decreases v, 1, 0
  {
    match v
    case Null => 0
    case Arr(items) => 1 + SizeOfItems(v, |items|)
    case Obj(fields) => 1 + SizeOfFields(v, |fields|)
    case _ => 1
  }

  /** The sizes of the first n items together. */
  function SizeOfItems(v: Json, n: nat): nat
    requires v.Arr? && n <= |v.items|
    decreases v, 0, n
  {
    if n == 0 then 0 else SizeOfItems(v, n - 1) + Size(v.items[n - 1])
  }

  function SizeOfFields(v: Json, n: nat): nat
    requires v.Obj? && n <= |v.fields|
    decreases v, 0, n
  {
    if n == 0 then 0 else SizeOfFields(v, n - 1) + Size(v.fields[n - 1].1)
  }

  /** Enum members are single values, as the gRPC layer's names are. */
  ghost predicate SingleEnums(root: Schema) {
    forall s :: Reaches(root, s, root) && s.Schema? && s.enum.Some? ==> forall v :: v in s.enum.value ==> Size(v) <= 1
  }

  lemma SmallSizes(v: Json)
    ensures Size(Obj([])) == 1 && Size(Arr([])) == 1 && Size(Null) == 0
    ensures forall scalar: Json :: !scalar.Arr? && !scalar.Obj? ==> Size(scalar) <= 1
    ensures Size(Arr([v])) == 1 + Size(v)
  {
    assert SizeOfItems(Arr([v]), 1) == SizeOfItems(Arr([v]), 0) + Size(v);
  }

  lemma {:induction false} SizeOfFront(fields: seq<(string, Json)>, f: (string, Json), n: nat)
    requires n <= |fields|
    ensures SizeOfFields(Obj(fields + [f]), n) == SizeOfFields(Obj(fields), n)
  {
    if n > 0 { SizeOfFront(fields, f, n - 1); }
  }

  lemma SizePush(fields: seq<(string, Json)>, f: (string, Json))
    ensures Size(Obj(fields + [f])) == Size(Obj(fields)) + Size(f.1)
  {
    SizeOfFront(fields, f, |fields|);
  }

  /** On any schema, cyclic or not, every value that is not null is paid for by the one budget that
      all branches share. */
  lemma {:induction false} SizeIsPaidFor(s: Schema, root: Schema, refPath: set<string>, b: nat, now: string)
    requires SingleEnums(root) && Reaches(root, s, root)
    ensures Size(Build(s, root, refPath, b, now).0) + Build(s, root, refPath, b, now).1 <= b
    decreases b, 0
  {
    hide Reaches, Uses, Size, ResolveRef;
    SmallSizes(Null);
    if s.Schema? && b > 0 {
      if s.ref.Some? {
        var resolved := ResolveRef(s.ref.value, root);
        if s.ref.value !in refPath && resolved.Some? {
          ReachesNext(root, s, resolved.value, root) by { UsesRef(s, resolved.value, root); }
          SizeIsPaidFor(resolved.value, root, refPath + {s.ref.value}, b - 1, now);
        }
      } else if s.enum.Some? {
        assert forall v :: v in s.enum.value ==> Size(v) <= 1;
      } else {
        UsesItems(s, root);
        if s.kind == "object" && s.properties.Some? {
          forall p | p in s.properties.value ensures Reaches(root, p.1, root) { ReachesNext(root, s, p.1, root); }
          FieldsArePaidFor(s.properties.value, root, refPath, b - 1, now);
        } else if s.kind == "object" && !Missing(s.additional) {
          ReachesNext(root, s, s.additional.value, root);
          SizeIsPaidFor(s.additional.value, root, refPath, b - 1, now);
          var f := ("key", Build(s.additional.value, root, refPath, b - 1, now).0);
          assert [] + [f] == [f];
          SizePush([], f);
        } else if s.kind == "array" && !Missing(s.items) {
          ReachesNext(root, s, s.items.value, root);
          SizeIsPaidFor(s.items.value, root, refPath, b - 1, now);
          SmallSizes(Build(s.items.value, root, refPath, b - 1, now).0);
        }
      }
    }
  }

  lemma UsesRef(s: Schema, t: Schema, root: Schema)
    requires s.Schema? && s.ref.Some? && ResolveRef(s.ref.value, root) == Some(t)
    ensures Uses(s, t, root)
  {
  }

  lemma FieldsUnfold(props: seq<(string, Schema)>, root: Schema, refPath: set<string>, b: nat, now: string)
    requires props != []
    ensures var n := |props| - 1;
            var (fields, left) := BuildFields(props[..n], root, refPath, b, now);
            var (v, rest) := Build(props[n].1, root, refPath, left, now);
            BuildFields(props, root, refPath, b, now) == (fields + [(props[n].0, v)], rest)
  {
    hide Build;
  }

  lemma {:induction false} FieldsArePaidFor(
    props: seq<(string, Schema)>, root: Schema, refPath: set<string>, b: nat, now: string)
    requires SingleEnums(root) && forall p :: p in props ==> Reaches(root, p.1, root)
    ensures Size(Obj(BuildFields(props, root, refPath, b, now).0)) + BuildFields(props, root, refPath, b, now).1 <=
            b + 1
    decreases b, |props|
  {
    hide Reaches, SingleEnums, Size, Build;
    SmallSizes(Null);
    if props != [] {
      var n := |props| - 1;
      FieldsUnfold(props, root, refPath, b, now);
      hide BuildFields;
      assert props[n] in props && forall p :: p in props[..n] ==> p in props;
      FieldsArePaidFor(props[..n], root, refPath, b, now);
      var (fields, left) := BuildFields(props[..n], root, refPath, b, now);
      SizeIsPaidFor(props[n].1, root, refPath, left, now);
      SizePush(fields, (props[n].0, Build(props[n].1, root, refPath, left, now).0));
    }
  }

  // ---------------------------------------------------------------- what the budget does not pay for

  /** The nulls inside v, v among them. */
  function Nulls(v: Json): nat
    decreases v, 1, 0
  {
    match v
    case Null => 1
    case Arr(items) => NullsOfItems(v, |items|)
    case Obj(fields) => NullsOfFields(v, |fields|)
    case _ => 0
  }

  function NullsOfItems(v: Json, n: nat): nat
    requires v.Arr? && n <= |v.items|
    decreases v, 0, n
  {
    if n == 0 then 0 else NullsOfItems(v, n - 1) + Nulls(v.items[n - 1])
  }

  function NullsOfFields(v: Json, n: nat): nat
    requires v.Obj? && n <= |v.fields|
    decreases v, 0, n
  {
    if n == 0 then 0 else NullsOfFields(v, n - 1) + Nulls(v.fields[n - 1].1)
  }

  /** No schema inside root has more than width properties, and no enum member holds two nulls. */
  ghost predicate Narrow(root: Schema, width: nat) {
    width >= 1 &&
    forall s :: Reaches(root, s, root) && s.Schema? ==>
      && (s.properties.Some? ==> |s.properties.value| <= width)
      && (s.enum.Some? ==> forall v :: v in s.enum.value ==> Nulls(v) <= 1)
  }

  lemma NarrowHere(s: Schema, root: Schema, width: nat)
    requires Narrow(root, width) && Reaches(root, s, root) && s.Schema?
    ensures width >= 1
    ensures s.properties.Some? ==> |s.properties.value| <= width
    ensures s.enum.Some? ==> Nulls(FirstOf(s.enum.value)) <= 1
  {
  }

  lemma FewNulls(v: Json)
    ensures Nulls(Obj([])) == 0 && Nulls(Arr([])) == 0
    ensures forall scalar: Json :: !scalar.Arr? && !scalar.Obj? ==> Nulls(scalar) <= 1
    ensures Nulls(Arr([v])) == Nulls(v) && Nulls(Obj([("key", v)])) == Nulls(v)
  {
    assert NullsOfItems(Arr([v]), 1) == NullsOfItems(Arr([v]), 0) + Nulls(v);
    assert NullsOfFields(Obj([("key", v)]), 1) == NullsOfFields(Obj([("key", v)]), 0) + Nulls(v);
  }

  lemma {:induction false} NullsOfFront(fields: seq<(string, Json)>, f: (string, Json), n: nat)
    requires n <= |fields|
    ensures NullsOfFields(Obj(fields + [f]), n) == NullsOfFields(Obj(fields), n)
  {
    if n > 0 { NullsOfFront(fields, f, n - 1); }
  }

  lemma NullsPush(fields: seq<(string, Json)>, f: (string, Json))
    ensures Nulls(Obj(fields + [f])) == Nulls(Obj(fields)) + Nulls(f.1)
  {
    NullsOfFront(fields, f, |fields|);
  }

  /** Spending one of the budget makes room for width nulls. */
  lemma OneSpent(width: nat, b: nat, rest: nat)
    requires rest < b
    ensures width * (b - 1) == width * b - width && width * rest <= width * (b - 1)
  {
    Spread(width, b - 1, 1);
    Spread(width, rest, b - 1 - rest);
  }

  lemma Spread(width: nat, x: nat, y: nat)
    ensures width * (x + y) == width * x + width * y && width * y >= 0
  {
  }

  lemma {:induction false} NullsAreFew(s: Schema, root: Schema, refPath: set<string>, b: nat, now: string, width: nat)
    requires Narrow(root, width) && Reaches(root, s, root)
    ensures Nulls(Build(s, root, refPath, b, now).0) + width * Build(s, root, refPath, b, now).1 <= 1 + width * b
    decreases b, 0
  {
    hide Reaches, Uses, Nulls, Narrow, ResolveRef;
    FewNulls(Null);
    if s.Schema? && b > 0 {
      NarrowHere(s, root, width);
      OneSpent(width, b, Build(s, root, refPath, b, now).1);
      if s.ref.Some? {
        var resolved := ResolveRef(s.ref.value, root);
        if s.ref.value !in refPath && resolved.Some? {
          ReachesNext(root, s, resolved.value, root) by { UsesRef(s, resolved.value, root); }
          NullsAreFew(resolved.value, root, refPath + {s.ref.value}, b - 1, now, width);
        }
      } else if s.enum.Some? {
      } else {
        UsesItems(s, root);
        if s.kind == "object" && s.properties.Some? {
          forall p | p in s.properties.value ensures Reaches(root, p.1, root) { ReachesNext(root, s, p.1, root); }
          FieldNullsAreFew(s.properties.value, root, refPath, b - 1, now, width);
        } else if s.kind == "object" && !Missing(s.additional) {
          ReachesNext(root, s, s.additional.value, root);
          NullsAreFew(s.additional.value, root, refPath, b - 1, now, width);
          FewNulls(Build(s.additional.value, root, refPath, b - 1, now).0);
        } else if s.kind == "array" && !Missing(s.items) {
          ReachesNext(root, s, s.items.value, root);
          NullsAreFew(s.items.value, root, refPath, b - 1, now, width);
          FewNulls(Build(s.items.value, root, refPath, b - 1, now).0);
        }
      }
    }
  }

  lemma {:induction false} FieldNullsAreFew(
    props: seq<(string, Schema)>, root: Schema, refPath: set<string>, b: nat, now: string, width: nat)
    requires Narrow(root, width) && forall p :: p in props ==> Reaches(root, p.1, root)
    ensures Nulls(Obj(BuildFields(props, root, refPath, b, now).0)) +
            width * BuildFields(props, root, refPath, b, now).1 <=
            |props| + width * b
    decreases b, |props|
  {
    hide Reaches, Narrow, Nulls, Build;
    FewNulls(Null);
    if props != [] {
      var n := |props| - 1;
      FieldsUnfold(props, root, refPath, b, now);
      hide BuildFields;
      assert props[n] in props && forall p :: p in props[..n] ==> p in props;
      FieldNullsAreFew(props[..n], root, refPath, b, now, width);
      var (fields, left) := BuildFields(props[..n], root, refPath, b, now);
      NullsAreFew(props[n].1, root, refPath, left, now, width);
      NullsPush(fields, (props[n].0, Build(props[n].1, root, refPath, left, now).0));
    }
  }

  /** However the references of a schema branch, its example holds at most 5000 values that are not
      null. The nulls that stand where the budget ran out, or where a schema has no type, are at most
      5000 times the properties of the widest schema, and one. */
  lemma ExampleIsBounded(schema: Schema, now: string)
    ensures SingleEnums(schema) ==> Size(Build(schema, schema, {ROOT_REF}, MAX_NODES, now).0) <= 5000
    ensures forall width: nat :: Narrow(schema, width) ==>
              Nulls(Build(schema, schema, {ROOT_REF}, MAX_NODES, now).0) <= 1 + width * 5000
  {
    hide Build, Size, Nulls, SingleEnums, Narrow;
    assert ReachesIn(schema, schema, schema, 0);
    if SingleEnums(schema) { SizeIsPaidFor(schema, schema, {ROOT_REF}, MAX_NODES, now); }
    forall width: nat | Narrow(schema, width)
      ensures Nulls(Build(schema, schema, {ROOT_REF}, MAX_NODES, now).0) <= 1 + width * MAX_NODES
    {
      NullsAreFew(schema, schema, {ROOT_REF}, MAX_NODES, now, width);
    }
  }

  /** The example of a well-formed schema conforms to it unless it was cut off after 5000 nodes, and is
      then what any larger budget gives. */
  lemma ExampleConforms(schema: Schema, now: string)
    requires WellFormed(schema)
    requires Build(schema, schema, {ROOT_REF}, MAX_NODES, now).1 > 0
    ensures Conforms(Build(schema, schema, {ROOT_REF}, MAX_NODES, now).0, schema, schema, {ROOT_REF}, now)
    ensures forall larger: nat :: larger >= MAX_NODES ==>
              Build(schema, schema, {ROOT_REF}, larger, now).0 == Build(schema, schema, {ROOT_REF}, MAX_NODES, now).0
  {
    hide Build;
    assert ReachesIn(schema, schema, schema, 0);
    assert schema.Schema?;
    BuildConforms(schema, schema, {ROOT_REF}, MAX_NODES, now);
    forall larger: nat | larger >= MAX_NODES
      ensures Build(schema, schema, {ROOT_REF}, larger, now).0 == Build(schema, schema, {ROOT_REF}, MAX_NODES, now).0
    {
      BudgetIsOnlyALimit(schema, schema, {ROOT_REF}, MAX_NODES, larger - MAX_NODES, now);
    }
  }

  // ---------------------------------------------------------------- a message that contains itself

  function Plain(kind: string): Schema {
    Schema(None, None, kind, "", None, None, None, map[])
  }

  function ToRoot(): Schema {
    Schema(Some(ROOT_REF), None, "", "", None, None, None, map[])
  }

  function SelfMessage(): Schema {
    Schema(None, None, "object", "", Some([("a", Plain("number")), ("self", ToRoot())]), None, None, map[])
  }

  lemma {:induction false} SelfMessageParts(s: Schema, n: nat)
    requires ReachesIn(SelfMessage(), s, SelfMessage(), n)
    ensures s in {SelfMessage(), ToRoot(), Plain("number")}
    decreases n
  {
    if n > 0 {
      var c :| ReachesIn(SelfMessage(), c, SelfMessage(), n - 1) && Uses(c, s, SelfMessage());
      SelfMessageParts(c, n - 1);
    }
  }

  /** Its example has to show both fields, and cuts off at the inner message. */
  lemma SelfMessageShown(v: Json, now: string)
    ensures WellFormed(SelfMessage())
    ensures Conforms(v, SelfMessage(), SelfMessage(), {ROOT_REF}, now) <==>
            v.Obj? && v.fields == [("a", Num(0)), ("self", Obj([]))]
  {
    var root := SelfMessage();
    forall s | Reaches(root, s, root)
      ensures s in {root, ToRoot(), Plain("number")}
    {
      var n: nat :| ReachesIn(root, s, root, n);
      SelfMessageParts(s, n);
    }
    NumberShown(if v.Obj? && |v.fields| == 2 then v.fields[0].1 else Null, root, {ROOT_REF}, now);
    ToRootConforms(if v.Obj? && |v.fields| == 2 then v.fields[1].1 else Null, root, now);
    if Conforms(v, root, root, {ROOT_REF}, now) {
      var n := ConformsBySteps(v, root, root, {ROOT_REF}, now);
      assert ConformsIn(v, root, root, {ROOT_REF}, now, n);
    } else if v.Obj? && |v.fields| == 2 && v.fields[0].0 == "a" && v.fields[1].0 == "self" {
      assert !ConformsIn(v, root, root, {ROOT_REF}, now, 0);
    }
  }

  lemma ConformsBySteps(v: Json, s: Schema, root: Schema, path: set<string>, now: string) returns (n: nat)
    requires Conforms(v, s, root, path, now)
    ensures ConformsIn(v, s, root, path, now, n)
  {
    n :| ConformsIn(v, s, root, path, now, n);
  }

  lemma NumberShown(v: Json, root: Schema, path: set<string>, now: string)
    ensures Conforms(v, Plain("number"), root, path, now) <==> v == Num(0)
  {
    assert ConformsIn(v, Plain("number"), root, path, now, 0) <==> v == Num(0);
  }

  lemma ToRootConforms(v: Json, root: Schema, now: string)
    requires PlainObject(root)
    ensures Conforms(v, ToRoot(), root, {ROOT_REF}, now) <==> v == Obj([])
  {
    assert ConformsIn(v, ToRoot(), root, {ROOT_REF}, now, 0) <==> v == Obj([]);
  }

  // ---------------------------------------------------------------- a message that is defined by name

  function ToNamed(name: string): Schema {
    Schema(Some("#/$defs/" + name), None, "", "", None, None, None, map[])
  }

  function Named(name: string): Schema {
    Schema(None, None, "object", "", Some([("n", Plain("number")), ("again", ToNamed(name))]), None, None, map[])
  }

  /** A list of the message of that name. */
  function NamedList(name: string): Schema {
    Schema(None, None, "array", "", None, Some(ToNamed(name)), None, map[name := Named(name)])
  }

  lemma NamedResolves(name: string)
    ensures ResolveRef("#/$defs/" + name, NamedList(name)) == Some(Named(name)) && "#/$defs/" + name != "#"
  {
    ResolveRefSpelled("#/$defs/" + name, NamedList(name), Named(name));
  }

  lemma {:induction false} NamedListParts(name: string, s: Schema, n: nat)
    requires ReachesIn(NamedList(name), s, NamedList(name), n)
    ensures s in {NamedList(name), ToNamed(name), Named(name), Plain("number")}
    ensures s == NamedList(name) ==> n == 0
    decreases n
  {
    hide ResolveRef;
    NamedResolves(name);
    if n > 0 {
      var c :| ReachesIn(NamedList(name), c, NamedList(name), n - 1) && Uses(c, s, NamedList(name));
      NamedListParts(name, c, n - 1);
    }
  }

  lemma NamedListWellFormed(name: string)
    ensures WellFormed(NamedList(name))
  {
    hide ResolveRef, ReachesIn, Uses;
    var root := NamedList(name);
    NamedResolves(name);
    forall s | Reaches(root, s, root)
      ensures s in {root, ToNamed(name), Named(name), Plain("number")}
    {
      var n: nat :| ReachesIn(root, s, root, n);
      NamedListParts(name, s, n);
    }
  }

  /** Its example shows the message once, and cuts off at the message inside it. */
  lemma NamedListShown(name: string, v: Json, now: string)
    ensures WellFormed(NamedList(name))
    ensures Conforms(v, NamedList(name), NamedList(name), {"#"}, now) <==>
            v == Arr([Obj([("n", Num(0)), ("again", Obj([]))])])
  {
    hide WellFormed, Conforms;
    var root := NamedList(name);
    NamedListWellFormed(name);
    var shown := Obj([("n", Num(0)), ("again", Obj([]))]);
    if v.Arr? && |v.items| == 1 { NamedReferenceShown(name, v.items[0], now); }
    NamedReferenceShown(name, shown, now);
    if Conforms(v, root, root, {"#"}, now) {
      var n := ConformsBySteps(v, root, root, {"#"}, now);
      assert ConformsIn(v, root, root, {"#"}, now, n);
    }
    if v == Arr([shown]) { ArrayConforms(shown, root, root, {"#"}, now); }
  }

  lemma NamedReferenceShown(name: string, v: Json, now: string)
    ensures Conforms(v, ToNamed(name), NamedList(name), {"#"}, now) <==>
            v == Obj([("n", Num(0)), ("again", Obj([]))])
  {
    hide Conforms;
    var root, path := NamedList(name), {"#", "#/$defs/" + name};
    assert {"#"} + {"#/$defs/" + name} == path;
    NamedResolves(name);
    NamedShown(name, v, now);
    if Conforms(v, ToNamed(name), root, {"#"}, now) {
      var n := ConformsBySteps(v, ToNamed(name), root, {"#"}, now);
      ConformsFor(v, Named(name), root, path, now, n - 1);
    }
    if Conforms(v, Named(name), root, path, now) {
      ConformsThroughRef(v, ToNamed(name), Named(name), root, {"#"}, now);
    }
  }

  lemma ConformsFor(v: Json, s: Schema, root: Schema, path: set<string>, now: string, n: nat)
    requires ConformsIn(v, s, root, path, now, n)
    ensures Conforms(v, s, root, path, now)
  {
  }

  lemma NamedShown(name: string, v: Json, now: string)
    ensures Conforms(v, Named(name), NamedList(name), {"#", "#/$defs/" + name}, now) <==>
            v == Obj([("n", Num(0)), ("again", Obj([]))])
  {
    hide Conforms, ResolveRef;
    var root, path := NamedList(name), {"#", "#/$defs/" + name};
    NamedResolves(name);
    var fields := [("n", Num(0)), ("again", Obj([]))];
    NumberShown(Num(0), root, path, now);
    CutOffConforms(ToNamed(name), root, path, now);
    FieldsMakeObject(Named(name), fields, root, path, now);
    if Conforms(v, Named(name), root, path, now) {
      var n := ConformsBySteps(v, Named(name), root, path, now);
      assert v.Obj? && |v.fields| == 2;
      NumberShown(v.fields[0].1, root, path, now);
      var m := ConformsBySteps(v.fields[1].1, ToNamed(name), root, path, now);
      assert v.fields == fields;
    }
  }

  /** That example is built from five nodes. */
  lemma NamedListBuilt(name: string, now: string)
    ensures Build(NamedList(name), NamedList(name), {"#"}, 5000, now) ==
            (Arr([Obj([("n", Num(0)), ("again", Obj([]))])]), 4995)
  {
    hide ResolveRef;
    var root, ref := NamedList(name), "#/$defs/" + name;
    NamedResolves(name);
    var props := Named(name).properties.value;
    var path := {"#"} + {ref};
    assert Build(Plain("number"), root, path, 4997, now) == (Num(0), 4996);
    assert Build(ToNamed(name), root, path, 4996, now) == (Obj([]), 4995);
    FieldsUnfold(props[..1], root, path, 4997, now);
    assert props[..1][..0] == [] && BuildFields([], root, path, 4997, now) == ([], 4997);
    assert BuildFields(props[..1], root, path, 4997, now).0 == [("n", Num(0))];
    FieldsUnfold(props, root, path, 4997, now);
    assert [("n", Num(0))] + [("again", Obj([]))] == [("n", Num(0)), ("again", Obj([]))];
    assert BuildFields(props, root, path, 4997, now) == ([("n", Num(0)), ("again", Obj([]))], 4995);
    assert Build(Named(name), root, path, 4998, now).0 == Obj([("n", Num(0)), ("again", Obj([]))]);
    assert Build(ToNamed(name), root, {"#"}, 4999, now) == Build(Named(name), root, path, 4998, now);
  }
}
