/**
 The HPC-profile currency check: a coverage walk of a document against a schema that may be
 recursive, and the location language that ties validation errors back to the walk.
 The document and the schema are values; pydantic's own validation is a list of errors.
 */
module ProfileWalk {
  import opened Wrappers

  // ----- documents and schemas

  /** A parsed YAML value. A mapping keeps its keys in order; reading a key takes its first entry. */
  datatype Doc = Scalar | Sequence(items: seq<Doc>) | Dict(entries: seq<Entry>)
  datatype Entry = Entry(key: string, value: Doc)

  type Mapping = seq<Entry>

  datatype Annotation =
    | Plain
    | NoneType
    | ModelRef(name: string)
    | DictOf(keys: Annotation, values: Annotation)
    | ListOf(element: Annotation)
    | UnionOf(members: seq<Annotation>)

  datatype Field = Field(name: string, annotation: Annotation)

  /** The models by name, each with its fields in order. */
  type Schema = map<string, seq<Field>>

  datatype Container = ByKey | ByIndex

  function NonNone(members: seq<Annotation>): (r: seq<Annotation>)
    ensures forall a | a in r :: a in members
  {
    if members == [] then []
    else (if members[0].NoneType? then [] else [members[0]]) + NonNone(members[1..])
  }

  /** The model an annotation holds and the containers in front of it, outermost first. */
  function Nested(a: Annotation): Option<(seq<Container>, string)>
    decreases a
  {
    match a
    case ModelRef(name) => Some(([], name))
    case UnionOf(members) =>
      var rest := NonNone(members);
      if |rest| == 1 then
        assert rest[0] in rest;
        Nested(rest[0])
      else None
    case DictOf(_, v) => Through(ByKey, Nested(v))
    case ListOf(e) => Through(ByIndex, Nested(e))
    case _ => None
  }

  function Through(step: Container, inner: Option<(seq<Container>, string)>): Option<(seq<Container>, string)> {
    match inner
    case Some((steps, model)) => Some(([step] + steps, model))
    case None => None
  }

  /**
   What it is for an annotation to hold a model behind containers, said of the annotation's shape: a
   dictionary is one step by key to its values, a list one step by index, and a union with a single
   member that is not `None` is that member.
   */
  ghost predicate Holds(a: Annotation, steps: seq<Container>, model: string)
    decreases a
  {
    match a
    case ModelRef(name) => steps == [] && name == model
    case DictOf(_, values) => steps != [] && steps[0] == ByKey && Holds(values, steps[1..], model)
    case ListOf(element) => steps != [] && steps[0] == ByIndex && Holds(element, steps[1..], model)
    case UnionOf(members) => exists i | 0 <= i < |members| :: OnlyMember(members, i) && Holds(members[i], steps, model)
    case Plain => false
    case NoneType => false
  }

  predicate OnlyMember(members: seq<Annotation>, i: nat)
    requires i < |members|
  {
    members[i] != NoneType && forall j | 0 <= j < |members| && j != i :: members[j] == NoneType
  }

  lemma {:induction false} NoneOnly(members: seq<Annotation>)
    ensures NonNone(members) == [] <==> forall j | 0 <= j < |members| :: members[j] == NoneType
  {
    if members != [] { NoneOnly(members[1..]); }
  }

  lemma {:induction false} OnlyMemberLeft(members: seq<Annotation>, i: nat)
    requires i < |members| && OnlyMember(members, i)
    ensures NonNone(members) == [members[i]]
    decreases |members|
  {
    if i > 0 {
      assert members[0] == NoneType && OnlyMember(members[1..], i - 1);
      OnlyMemberLeft(members[1..], i - 1);
    } else {
      NoneOnly(members[1..]);
    }
  }

  lemma {:induction false} OneLeft(members: seq<Annotation>) returns (i: nat)
    requires |NonNone(members)| == 1
    ensures i < |members| && OnlyMember(members, i)
    decreases |members|
  {
    if members[0] == NoneType {
      var k := OneLeft(members[1..]);
      i := k + 1;
    } else {
      NoneOnly(members[1..]);
      i := 0;
    }
  }

  lemma ThroughExactly(step: Container, inner: Option<(seq<Container>, string)>, steps: seq<Container>, model: string)
    ensures Through(step, inner) == Some((steps, model))
       <==> steps != [] && steps[0] == step && inner == Some((steps[1..], model))
  {
    if steps != [] { assert steps == [steps[0]] + steps[1..]; }
  }

  /** The classification is that reading: it finds a model and its containers exactly where there are some. */
  lemma {:induction false} NestedExactly(a: Annotation, steps: seq<Container>, model: string)
    ensures Nested(a) == Some((steps, model)) <==> Holds(a, steps, model)
    decreases a
  {
    match a {
      case DictOf(_, values) =>
        ThroughExactly(ByKey, Nested(values), steps, model);
        if steps != [] { NestedExactly(values, steps[1..], model); }
      case ListOf(element) =>
        ThroughExactly(ByIndex, Nested(element), steps, model);
        if steps != [] { NestedExactly(element, steps[1..], model); }
      case UnionOf(members) =>
        if |NonNone(members)| == 1 { var k := OneLeft(members); }
        forall i | 0 <= i < |members| && OnlyMember(members, i)
          ensures Nested(a) == Some((steps, model)) <==> Holds(members[i], steps, model)
        {
          OnlyMemberLeft(members, i);
          NestedExactly(members[i], steps, model);
        }
      case _ =>
    }
  }

  /** `X | None` is classified as `X`, whatever `X` is, and a union of two or more other types as nothing. */
  lemma OptionalIsTransparent(a: Annotation, b: Annotation)
    requires a != NoneType
    ensures Nested(UnionOf([a, NoneType])) == Nested(a) == Nested(UnionOf([NoneType, a]))
    ensures b != NoneType ==> Nested(UnionOf([a, b])) == None
  {
    forall steps, model
      ensures Holds(UnionOf([a, NoneType]), steps, model) <==> Holds(a, steps, model)
      ensures Holds(UnionOf([NoneType, a]), steps, model) <==> Holds(a, steps, model)
    {
      assert OnlyMember([a, NoneType], 0) && OnlyMember([NoneType, a], 1);
    }
    SameClass(UnionOf([a, NoneType]), a);
    SameClass(UnionOf([NoneType, a]), a);
    if b != NoneType {
      assert !OnlyMember([a, b], 0) && !OnlyMember([a, b], 1) by { assert [a, b][0] == a && [a, b][1] == b; }
      SameClass(UnionOf([a, b]), Plain);
    }
  }

  lemma SameClass(a: Annotation, b: Annotation)
    requires forall steps, model :: Holds(a, steps, model) <==> Holds(b, steps, model)
    ensures Nested(a) == Nested(b)
  {
    hide Nested;
    if Nested(a).Some? {
      var (steps, model) := Nested(a).value;
      NestedExactly(a, steps, model);
      NestedExactly(b, steps, model);
    }
    if Nested(b).Some? {
      var (steps, model) := Nested(b).value;
      NestedExactly(a, steps, model);
      NestedExactly(b, steps, model);
    }
  }

  predicate IsField(fields: seq<Field>, name: string) {
    exists i | 0 <= i < |fields| :: fields[i].name == name
  }

  /** The annotation of a model's field. */
  function AnnotationOf(fields: seq<Field>, name: string): Annotation
    requires IsField(fields, name)
  {
    if fields[0].name == name then fields[0].annotation else AnnotationOf(fields[1..], name)
  }

  /** Field names are keys, so they are distinct, and every model a field holds is in the schema. */
  ghost predicate Closed(schema: Schema) {
    forall m | m in schema ::
      && (forall i, j | 0 <= i < j < |schema[m]| :: schema[m][i].name != schema[m][j].name)
      && forall i | 0 <= i < |schema[m]| ::
           var n := Nested(schema[m][i].annotation);
           n.Some? ==> n.value.1 in schema
  }

  lemma {:induction false} AnnotationAt(fields: seq<Field>, i: nat)
    requires i < |fields| && forall j, k | 0 <= j < k < |fields| :: fields[j].name != fields[k].name
    ensures IsField(fields, fields[i].name) && AnnotationOf(fields, fields[i].name) == fields[i].annotation
  {
    if i > 0 { AnnotationAt(fields[1..], i - 1); }
  }

  predicate HasKey(m: Mapping, key: string) {
    exists i | 0 <= i < |m| :: m[i].key == key
  }

  function ValueAt(m: Mapping, key: string): (v: Doc)
    requires HasKey(m, key)
    ensures exists i | 0 <= i < |m| :: m[i] == Entry(key, v)
  {
    if m[0].key == key then m[0].value else ValueAt(m[1..], key)
  }

  // ----- the height of documents, which bounds the descent

  function Height(d: Doc): nat {
    match d
    case Scalar => 0
    case Sequence(items) => 1 + HeightAll(items)
    case Dict(entries) => 1 + HeightValues(entries)
  }

  function HeightAll(docs: seq<Doc>): (h: nat)
    ensures forall i | 0 <= i < |docs| :: Height(docs[i]) <= h
  {
    if docs == [] then 0
    else
      var rest := HeightAll(docs[1..]);
      if Height(docs[0]) > rest then Height(docs[0]) else rest
  }

  function HeightValues(entries: seq<Entry>): (h: nat)
    ensures forall i | 0 <= i < |entries| :: Height(entries[i].value) <= h
  {
    if entries == [] then 0
    else
      var rest := HeightValues(entries[1..]);
      if Height(entries[0].value) > rest then Height(entries[0].value) else rest
  }

  /** The height of the tallest mapping; 0 for none. */
  function Tallest(ms: seq<Mapping>): (h: nat)
    ensures forall i | 0 <= i < |ms| :: Height(Dict(ms[i])) <= h
    ensures ms == [] <==> h == 0
  {
    if ms == [] then 0
    else
      var rest := Tallest(ms[1..]);
      if Height(Dict(ms[0])) > rest then Height(Dict(ms[0])) else rest
  }

  lemma {:induction false} TallestBound(ms: seq<Mapping>, h: nat)
    requires forall i | 0 <= i < |ms| :: Height(Dict(ms[i])) <= h
    ensures Tallest(ms) <= h
  {
    if ms != [] { TallestBound(ms[1..], h); }
  }

  // ----- one level of the walk

  /** The values the mappings carry under `name`, in order. */
  function Carried(ms: seq<Mapping>, name: string): seq<Doc> {
    if ms == [] then []
    else (if HasKey(ms[0], name) then [ValueAt(ms[0], name)] else []) + Carried(ms[1..], name)
  }

  predicate IsCarried(ms: seq<Mapping>, name: string) {
    exists i | 0 <= i < |ms| :: HasKey(ms[i], name)
  }

  function Values(entries: seq<Entry>): seq<Doc> {
    if entries == [] then [] else [entries[0].value] + Values(entries[1..])
  }

  /** What one container step makes of a value; the wrong container type contributes nothing. */
  function Open(d: Doc, step: Container): seq<Doc> {
    if step == ByKey && d.Dict? then Values(d.entries)
    else if step == ByIndex && d.Sequence? then d.items
    else []
  }

  function OpenAll(level: seq<Doc>, step: Container): seq<Doc> {
    if level == [] then [] else Open(level[0], step) + OpenAll(level[1..], step)
  }

  function Descend(level: seq<Doc>, steps: seq<Container>): seq<Doc>
    decreases |steps|
  {
    if steps == [] then level else Descend(OpenAll(level, steps[0]), steps[1..])
  }

  function Dicts(level: seq<Doc>): seq<Mapping> {
    if level == [] then [] else (if level[0].Dict? then [level[0].entries] else []) + Dicts(level[1..])
  }

  /** The mappings one level down, through the field `name` and the containers of its annotation. */
  function Inner(ms: seq<Mapping>, name: string, steps: seq<Container>): seq<Mapping> {
    Dicts(Descend(Carried(ms, name), steps))
  }

  lemma {:induction false} CarriedHolds(ms: seq<Mapping>, name: string, v: Doc)
    ensures v in Carried(ms, name) <==> exists i | 0 <= i < |ms| :: HasKey(ms[i], name) && ValueAt(ms[i], name) == v
  {
    if ms != [] {
      CarriedHolds(ms[1..], name, v);
      if i :| 0 <= i < |ms| && HasKey(ms[i], name) && ValueAt(ms[i], name) == v {
        if i > 0 { assert ms[1..][i - 1] == ms[i]; }
      }
    }
  }

  lemma {:induction false} ValuesHolds(entries: seq<Entry>, v: Doc)
    ensures v in Values(entries) <==> exists i | 0 <= i < |entries| :: entries[i].value == v
  {
    if entries != [] {
      ValuesHolds(entries[1..], v);
      if i :| 0 <= i < |entries| && entries[i].value == v {
        if i > 0 { assert entries[1..][i - 1] == entries[i]; }
      }
    }
  }

  lemma {:induction false} OpenAllHolds(level: seq<Doc>, step: Container, v: Doc)
    ensures v in OpenAll(level, step) <==> exists d | d in level :: v in Open(d, step)
  {
    if level != [] {
      OpenAllHolds(level[1..], step, v);
      assert forall d :: d in level <==> d == level[0] || d in level[1..];
    }
  }

  lemma {:induction false} DictsHolds(level: seq<Doc>, m: Mapping)
    ensures m in Dicts(level) <==> Dict(m) in level
  {
    if level != [] { DictsHolds(level[1..], m); }
  }

  lemma OpenShrinks(d: Doc, step: Container, v: Doc)
    requires v in Open(d, step)
    ensures Height(v) < Height(d)
  {
    if d.Dict? { ValuesHolds(d.entries, v); }
  }

  lemma {:induction false} DescendShrinks(level: seq<Doc>, steps: seq<Container>, h: nat)
    requires forall d | d in level :: Height(d) <= h
    ensures forall v | v in Descend(level, steps) :: Height(v) <= h
    decreases |steps|
  {
    if steps != [] {
      forall v | v in OpenAll(level, steps[0]) ensures Height(v) <= h {
        OpenAllHolds(level, steps[0], v);
        var d :| d in level && v in Open(d, steps[0]);
        OpenShrinks(d, steps[0], v);
      }
      DescendShrinks(OpenAll(level, steps[0]), steps[1..], h);
    }
  }

  /** `v` stands in `d` behind the containers: under some key or at some index for each step. */
  ghost predicate Within(d: Doc, steps: seq<Container>, v: Doc)
    decreases |steps|
  {
    if steps == [] then v == d
    else if steps[0] == ByKey then
      d.Dict? && exists i | 0 <= i < |d.entries| :: Within(d.entries[i].value, steps[1..], v)
    else
      d.Sequence? && exists i | 0 <= i < |d.items| :: Within(d.items[i], steps[1..], v)
  }

  lemma OpenExactly(d: Doc, step: Container, rest: seq<Container>, v: Doc)
    ensures Within(d, [step] + rest, v) <==> exists u | u in Open(d, step) :: Within(u, rest, v)
  {
    assert ([step] + rest)[1..] == rest;
    if step == ByKey && d.Dict? {
      if u :| u in Open(d, step) && Within(u, rest, v) {
        ValuesHolds(d.entries, u);
      }
      if i :| 0 <= i < |d.entries| && Within(d.entries[i].value, rest, v) {
        ValuesHolds(d.entries, d.entries[i].value);
      }
    } else if step == ByIndex && d.Sequence? {
      if u :| u in d.items && Within(u, rest, v) {
        var i :| 0 <= i < |d.items| && d.items[i] == u;
        assert Within(d.items[i], rest, v);
      }
    }
  }

  /** Opening one container per step collects exactly the values behind them. */
  lemma {:induction false} DescendExactly(level: seq<Doc>, steps: seq<Container>, v: Doc)
    ensures v in Descend(level, steps) <==> exists d | d in level :: Within(d, steps, v)
    decreases |steps|
  {
    if steps != [] {
      hide Open, Within;
      assert steps == [steps[0]] + steps[1..];
      var step, rest := steps[0], steps[1..];
      DescendExactly(OpenAll(level, step), rest, v);
      if d :| d in level && Within(d, steps, v) {
        OpenExactly(d, step, rest, v);
        var u :| u in Open(d, step) && Within(u, rest, v);
        OpenAllHolds(level, step, u);
      }
      if u :| u in OpenAll(level, step) && Within(u, rest, v) {
        OpenAllHolds(level, step, u);
        var d :| d in level && u in Open(d, step);
        OpenExactly(d, step, rest, v);
      }
    } else {
      assert forall d :: Within(d, steps, v) <==> d == v;
    }
  }

  /** The mappings one level down are those that stand behind the containers of the field's values, and no others. */
  lemma InnerExactly(ms: seq<Mapping>, name: string, steps: seq<Container>, m: Mapping)
    ensures m in Inner(ms, name, steps)
       <==> exists i | 0 <= i < |ms| :: HasKey(ms[i], name) && Within(ValueAt(ms[i], name), steps, Dict(m))
  {
    hide Within;
    DictsHolds(Descend(Carried(ms, name), steps), m);
    DescendExactly(Carried(ms, name), steps, Dict(m));
    forall v ensures v in Carried(ms, name) <==> exists i | 0 <= i < |ms| :: HasKey(ms[i], name) && ValueAt(ms[i], name) == v {
      CarriedHolds(ms, name, v);
    }
  }

  /** Each descent through a carried field loses height, whatever the schema says. */
  lemma InnerShrinks(ms: seq<Mapping>, name: string, steps: seq<Container>)
    requires IsCarried(ms, name)
    ensures Tallest(Inner(ms, name, steps)) < Tallest(ms)
  {
    var h := Tallest(ms);
    assert h > 0;
    forall v | v in Carried(ms, name) ensures Height(v) <= h - 1 {
      CarriedHolds(ms, name, v);
    }
    DescendShrinks(Carried(ms, name), steps, h - 1);
    var inner := Inner(ms, name, steps);
    forall i | 0 <= i < |inner| ensures Height(Dict(inner[i])) <= h - 1 {
      DictsHolds(Descend(Carried(ms, name), steps), inner[i]);
    }
    TallestBound(inner, h - 1);
  }

  // ----- the walk

  datatype Code = FieldAbsent | KeyNotInModel
  datatype Finding = Finding(location: string, code: Code)

  function Stars(n: nat): string {
    if n == 0 then "" else "*." + Stars(n - 1)
  }

  /** The prefix under which the fields of the nested model are named. */
  function SubPrefix(prefix: string, name: string, steps: seq<Container>): string {
    prefix + name + "." + Stars(|steps|)
  }

  function UnknownIn(m: Mapping, fields: seq<Field>, prefix: string): seq<Finding> {
    if m == [] then []
    else
      var n := |m| - 1;
      UnknownIn(m[..n], fields, prefix)
      + (if IsField(fields, m[n].key) then [] else [Finding(prefix + m[n].key, KeyNotInModel)])
  }

  function Unknowns(ms: seq<Mapping>, fields: seq<Field>, prefix: string): seq<Finding> {
    if ms == [] then []
    else
      var n := |ms| - 1;
      Unknowns(ms[..n], fields, prefix) + UnknownIn(ms[n], fields, prefix)
  }

  /** The findings for `model` over the mappings that instantiate it, and the number of fields checked. */
  function Walk(schema: Schema, model: string, ms: seq<Mapping>, prefix: string): (seq<Finding>, nat)
    requires Closed(schema) && model in schema
    decreases Tallest(ms), 1, 0
  {
    var (findings, checked) := WalkFields(schema, model, |schema[model]|, ms, prefix);
    (findings + Unknowns(ms, schema[model], prefix), checked)
  }

  /** The first `n` fields of the model. */
  function WalkFields(schema: Schema, model: string, n: nat, ms: seq<Mapping>, prefix: string): (seq<Finding>, nat)
    requires Closed(schema) && model in schema && n <= |schema[model]|
    decreases Tallest(ms), 0, n
  {
    if n == 0 then ([], 0)
    else
      var (before, checked) := WalkFields(schema, model, n - 1, ms, prefix);
      var (here, more) := WalkField(schema, schema[model][n - 1], ms, prefix);
      (before + here, checked + 1 + more)
  }

  function WalkField(schema: Schema, field: Field, ms: seq<Mapping>, prefix: string): (seq<Finding>, nat)
    requires Closed(schema) && (Nested(field.annotation).Some? ==> Nested(field.annotation).value.1 in schema)
    decreases Tallest(ms), 0, 0
  {
    if !IsCarried(ms, field.name) then ([Finding(prefix + field.name, FieldAbsent)], 0)
    else
      match Nested(field.annotation)
      case None => ([], 0)
      case Some((steps, sub)) =>
        InnerShrinks(ms, field.name, steps);
        Walk(schema, sub, Inner(ms, field.name, steps), SubPrefix(prefix, field.name, steps))
  }

  /** The walk as written, extending its findings in loops and recursing through carried fields only. */
  method WalkModel(schema: Schema, model: string, ms: seq<Mapping>, prefix: string)
    returns (findings: seq<Finding>, checked: nat)
    requires Closed(schema) && model in schema
    ensures (findings, checked) == Walk(schema, model, ms, prefix)
    decreases Tallest(ms)
  {
    hide Nested, IsCarried, Inner, SubPrefix, Unknowns;
    findings, checked := [], 0;
    for i := 0 to |schema[model]|
      invariant (findings, checked) == WalkFields(schema, model, i, ms, prefix)
    {
      var field := schema[model][i];
      ghost var step := WalkField(schema, field, ms, prefix);
      ghost var next := (findings + step.0, checked + 1 + step.1);
      assert WalkFields(schema, model, i + 1, ms, prefix) == next;
      checked := checked + 1;
      if !IsCarried(ms, field.name) {
        findings := findings + [Finding(prefix + field.name, FieldAbsent)];
        assert (findings, checked) == next;
        continue;
      }
      var nested := Nested(field.annotation);
      if nested == None {
        assert step == ([], 0) && findings + [] == findings;
        continue;
      }
      var (steps, sub) := nested.value;
      InnerShrinks(ms, field.name, steps);
      var inner := OpenLevels(ms, field.name, steps);
      var more, n := WalkModel(schema, sub, inner, SubPrefix(prefix, field.name, steps));
      assert step == (more, n);
      findings := findings + more;
      checked := checked + n;
    }
    var foreign := ForeignKeys(ms, schema[model], prefix);
    findings := findings + foreign;
  }

  /** The second loop of the walk: every key of every mapping that is no field of the model. */
  method ForeignKeys(ms: seq<Mapping>, fields: seq<Field>, prefix: string) returns (findings: seq<Finding>)
    ensures findings == Unknowns(ms, fields, prefix)
  {
    findings := [];
    for j := 0 to |ms|
      invariant findings == Unknowns(ms[..j], fields, prefix)
    {
      assert ms[..j + 1][..j] == ms[..j];
      ghost var sofar := findings;
      var m := ms[j];
      for k := 0 to |m|
        invariant findings == sofar + UnknownIn(m[..k], fields, prefix)
      {
        assert m[..k + 1][..k] == m[..k];
        if !IsField(fields, m[k].key) {
          findings := findings + [Finding(prefix + m[k].key, KeyNotInModel)];
        }
      }
      assert m[..|m|] == m;
    }
    assert ms[..|ms|] == ms;
  }

  /** The level list: one pass per container step of the annotation, then the mappings in it. */
  method OpenLevels(ms: seq<Mapping>, name: string, steps: seq<Container>) returns (inner: seq<Mapping>)
    ensures inner == Inner(ms, name, steps)
  {
    var level := Carried(ms, name);
    for s := 0 to |steps|
      invariant Descend(level, steps[s..]) == Descend(Carried(ms, name), steps)
    {
      assert steps[s..][1..] == steps[s + 1..];
      level := OpenAll(level, steps[s]);
    }
    return Dicts(level);
  }

  // ----- what the findings mean

  /** The steps and the model behind a field, if it holds one. */
  function Below(schema: Schema, model: string, name: string): Option<(seq<Container>, string)>
    requires model in schema
  {
    if IsField(schema[model], name) then Nested(AnnotationOf(schema[model], name)) else None
  }

  lemma BelowInSchema(schema: Schema, model: string, name: string)
    requires Closed(schema) && model in schema && Below(schema, model, name).Some?
    ensures Below(schema, model, name).value.1 in schema
  {
    var i :| 0 <= i < |schema[model]| && schema[model][i].name == name;
    AnnotationAt(schema[model], i);
  }

  /** `path` names fields, each holding the model the next one belongs to. */
  predicate SchemaPath(schema: Schema, model: string, path: seq<string>)
    requires model in schema
    decreases |path|
  {
    path == [] || (var b := Below(schema, model, path[0]);
                   b.Some? && b.value.1 in schema && SchemaPath(schema, b.value.1, path[1..]))
  }

  /** The model a schema path leads to. */
  function ModelAt(schema: Schema, model: string, path: seq<string>): (m: string)
    requires model in schema && SchemaPath(schema, model, path)
    ensures m in schema
    decreases |path|
  {
    if path == [] then model else ModelAt(schema, Below(schema, model, path[0]).value.1, path[1..])
  }

  /** The document's mappings found along a schema path. */
  function Instances(schema: Schema, model: string, ms: seq<Mapping>, path: seq<string>): seq<Mapping>
    requires model in schema && SchemaPath(schema, model, path)
    decreases |path|
  {
    if path == [] then ms
    else
      var (steps, sub) := Below(schema, model, path[0]).value;
      Instances(schema, sub, Inner(ms, path[0], steps), path[1..])
  }

  /** Every field along the path is carried by some instance of its model. */
  predicate Reached(schema: Schema, model: string, ms: seq<Mapping>, path: seq<string>)
    requires model in schema && SchemaPath(schema, model, path)
    decreases |path|
  {
    path == []
    || (IsCarried(ms, path[0])
        && var (steps, sub) := Below(schema, model, path[0]).value;
           Reached(schema, sub, Inner(ms, path[0], steps), path[1..]))
  }

  /** The starred prefix of the level a path leads to. */
  function LevelPrefix(schema: Schema, model: string, prefix: string, path: seq<string>): string
    requires model in schema && SchemaPath(schema, model, path)
    decreases |path|
  {
    if path == [] then prefix
    else
      var (steps, sub) := Below(schema, model, path[0]).value;
      LevelPrefix(schema, sub, SubPrefix(prefix, path[0], steps), path[1..])
  }

  /** At the level of this path, `f` is the reason for the finding. */
  ghost predicate Justifies(schema: Schema, model: string, ms: seq<Mapping>, prefix: string, f: Finding,
                            path: seq<string>, name: string)
    requires model in schema
  {
    && SchemaPath(schema, model, path)
    && Reached(schema, model, ms, path)
    && f.location == LevelPrefix(schema, model, prefix, path) + name
    && (match f.code
        case FieldAbsent =>
          && IsField(schema[ModelAt(schema, model, path)], name)
          && !IsCarried(Instances(schema, model, ms, path), name)
        case KeyNotInModel =>
          && !IsField(schema[ModelAt(schema, model, path)], name)
          && IsCarried(Instances(schema, model, ms, path), name))
  }

  ghost predicate Justified(schema: Schema, model: string, ms: seq<Mapping>, prefix: string, f: Finding)
    requires model in schema
  {
    exists path, name :: Justifies(schema, model, ms, prefix, f, path, name)
  }

  lemma {:induction false} UnknownInHolds(m: Mapping, fields: seq<Field>, prefix: string, f: Finding)
    ensures f in UnknownIn(m, fields, prefix)
       <==> f.code == KeyNotInModel && exists k: string :: HasKey(m, k) && !IsField(fields, k) && f.location == prefix + k
  {
    if m != [] {
      var n := |m| - 1;
      UnknownInHolds(m[..n], fields, prefix, f);
      forall k ensures HasKey(m, k) <==> HasKey(m[..n], k) || m[n].key == k {
        if HasKey(m[..n], k) {
          var i :| 0 <= i < n && m[..n][i].key == k;
          assert m[i].key == k;
        }
        if i :| 0 <= i < |m| && m[i].key == k {
          if i < n { assert m[..n][i].key == k; }
        }
      }
    }
  }

  lemma {:induction false} UnknownsHolds(ms: seq<Mapping>, fields: seq<Field>, prefix: string, f: Finding)
    ensures f in Unknowns(ms, fields, prefix)
       <==> f.code == KeyNotInModel && exists k: string :: IsCarried(ms, k) && !IsField(fields, k) && f.location == prefix + k
  {
    if ms != [] {
      var n := |ms| - 1;
      UnknownsHolds(ms[..n], fields, prefix, f);
      UnknownInHolds(ms[n], fields, prefix, f);
      forall k ensures IsCarried(ms, k) <==> IsCarried(ms[..n], k) || HasKey(ms[n], k) {
        if IsCarried(ms[..n], k) {
          var i :| 0 <= i < n && HasKey(ms[..n][i], k);
          assert HasKey(ms[i], k);
        }
        if i :| 0 <= i < |ms| && HasKey(ms[i], k) {
          if i < n { assert HasKey(ms[..n][i], k); }
        }
      }
    }
  }

  lemma {:induction false} WalkFieldsHolds(schema: Schema, model: string, n: nat, ms: seq<Mapping>, prefix: string, f: Finding)
    requires Closed(schema) && model in schema && n <= |schema[model]|
    ensures f in WalkFields(schema, model, n, ms, prefix).0
       <==> exists i | 0 <= i < n :: f in WalkField(schema, schema[model][i], ms, prefix).0
    decreases n
  {
    if n > 0 { WalkFieldsHolds(schema, model, n - 1, ms, prefix, f); }
  }

  /** Every finding of the walk has its reason at some reached level of the schema. */
  lemma {:induction false} WalkSound(schema: Schema, model: string, ms: seq<Mapping>, prefix: string, f: Finding)
    requires Closed(schema) && model in schema && f in Walk(schema, model, ms, prefix).0
    ensures Justified(schema, model, ms, prefix, f)
    decreases Tallest(ms)
  {
    var fields := schema[model];
    UnknownsHolds(ms, fields, prefix, f);
    if f in Unknowns(ms, fields, prefix) {
      var k: string :| IsCarried(ms, k) && !IsField(fields, k) && f.location == prefix + k;
      assert Justifies(schema, model, ms, prefix, f, [], k);
    } else {
      WalkFieldsHolds(schema, model, |fields|, ms, prefix, f);
      var i :| 0 <= i < |fields| && f in WalkField(schema, fields[i], ms, prefix).0;
      var name := fields[i].name;
      AnnotationAt(fields, i);
      if !IsCarried(ms, name) {
        assert Justifies(schema, model, ms, prefix, f, [], name);
      } else {
        var (steps, sub) := Nested(fields[i].annotation).value;
        InnerShrinks(ms, name, steps);
        WalkSound(schema, sub, Inner(ms, name, steps), SubPrefix(prefix, name, steps), f);
        JustifiedAbove(schema, model, ms, prefix, f, name);
      }
    }
  }

  /** A reason below a carried field is a reason above it, one field further along the path. */
  lemma JustifiedAbove(schema: Schema, model: string, ms: seq<Mapping>, prefix: string, f: Finding, name: string)
    requires model in schema && Below(schema, model, name).Some? && IsCarried(ms, name)
    requires var (steps, sub) := Below(schema, model, name).value;
             sub in schema && Justified(schema, sub, Inner(ms, name, steps), SubPrefix(prefix, name, steps), f)
    ensures Justified(schema, model, ms, prefix, f)
  {
    var (steps, sub) := Below(schema, model, name).value;
    var path, k :| Justifies(schema, sub, Inner(ms, name, steps), SubPrefix(prefix, name, steps), f, path, k);
    assert ([name] + path)[1..] == path;
    assert Justifies(schema, model, ms, prefix, f, [name] + path, k);
  }

  /** Every reason at a reached level is reported. */
  lemma {:induction false} WalkComplete(schema: Schema, model: string, ms: seq<Mapping>, prefix: string, f: Finding,
                                        path: seq<string>, name: string)
    requires Closed(schema) && model in schema && Justifies(schema, model, ms, prefix, f, path, name)
    ensures f in Walk(schema, model, ms, prefix).0
    decreases |path|
  {
    var fields := schema[model];
    if path == [] {
      UnknownsHolds(ms, fields, prefix, f);
      if f.code == FieldAbsent {
        var i :| 0 <= i < |fields| && fields[i].name == name;
        assert f in WalkField(schema, fields[i], ms, prefix).0;
        WalkFieldsHolds(schema, model, |fields|, ms, prefix, f);
      }
    } else {
      var i :| 0 <= i < |fields| && fields[i].name == path[0];
      AnnotationAt(fields, i);
      var (steps, sub) := Nested(fields[i].annotation).value;
      InnerShrinks(ms, path[0], steps);
      WalkComplete(schema, sub, Inner(ms, path[0], steps), SubPrefix(prefix, path[0], steps), f, path[1..], name);
      assert f in WalkField(schema, fields[i], ms, prefix).0;
      WalkFieldsHolds(schema, model, |fields|, ms, prefix, f);
    }
  }

  /** The walk reports exactly the absent fields and unknown keys of the levels it reaches, each at its starred location. */
  lemma WalkExact(schema: Schema, model: string, ms: seq<Mapping>, prefix: string, f: Finding)
    requires Closed(schema) && model in schema
    ensures f in Walk(schema, model, ms, prefix).0 <==> Justified(schema, model, ms, prefix, f)
  {
    if f in Walk(schema, model, ms, prefix).0 { WalkSound(schema, model, ms, prefix, f); }
    if Justified(schema, model, ms, prefix, f) {
      var path, name :| Justifies(schema, model, ms, prefix, f, path, name);
      WalkComplete(schema, model, ms, prefix, f, path, name);
    }
  }

  /**
   A field missing from a model behind another field's containers, `None` alternatives included, is
   reported there: a star for each container.
   */
  lemma MissingBehindField(schema: Schema, model: string, i: nat, ms: seq<Mapping>, prefix: string,
                           steps: seq<Container>, sub: string, field: string)
    requires Closed(schema) && model in schema && i < |schema[model]| && Holds(schema[model][i].annotation, steps, sub)
    requires exists k | 0 <= k < |ms| :: HasKey(ms[k], schema[model][i].name)
    requires sub in schema && exists j | 0 <= j < |schema[sub]| :: schema[sub][j].name == field
    requires forall k, m | 0 <= k < |ms| && HasKey(ms[k], schema[model][i].name)
                           && Within(ValueAt(ms[k], schema[model][i].name), steps, Dict(m)) :: !HasKey(m, field)
    ensures Finding(prefix + schema[model][i].name + "." + Stars(|steps|) + field, FieldAbsent)
         in Walk(schema, model, ms, prefix).0
    ensures |steps| == 1 ==>
              Finding(prefix + schema[model][i].name + ".*." + field, FieldAbsent) in Walk(schema, model, ms, prefix).0
  {
    var name := schema[model][i].name;
    assert |steps| == 1 ==> Stars(|steps|) == "*." && prefix + name + "." + "*." == prefix + name + ".*.";
    AnnotationAt(schema[model], i);
    NestedExactly(schema[model][i].annotation, steps, sub);
    var inner := Inner(ms, name, steps);
    if IsCarried(inner, field) {
      var k :| 0 <= k < |inner| && HasKey(inner[k], field);
      InnerExactly(ms, name, steps, inner[k]);
      assert false;
    }
    hide Nested, Holds, Within, Inner;
    var f := Finding(SubPrefix(prefix, name, steps) + field, FieldAbsent);
    assert Justifies(schema, sub, inner, SubPrefix(prefix, name, steps), f, [], field);
    JustifiedAbove(schema, model, ms, prefix, f, name);
    WalkExact(schema, model, ms, prefix, f);
  }

  // ----- how many fields are checked

  /** `place` names a field of the model that some reached schema path leads to. */
  ghost predicate Place(schema: Schema, model: string, ms: seq<Mapping>, place: seq<string>)
    requires model in schema
  {
    && place != []
    && var path := place[..|place| - 1];
       && SchemaPath(schema, model, path) && Reached(schema, model, ms, path)
       && IsField(schema[ModelAt(schema, model, path)], place[|place| - 1])
  }

  ghost function InFront(name: string, places: set<seq<string>>): set<seq<string>> {
    set q | q in places :: [name] + q
  }

  lemma {:induction false} InFrontSize(name: string, places: set<seq<string>>)
    ensures |InFront(name, places)| == |places|
    decreases |places|
  {
    if places != {} {
      var q :| q in places;
      InFrontSize(name, places - {q});
      assert forall r :: ([name] + r)[1..] == r;
      assert InFront(name, places) == InFront(name, places - {q}) + {[name] + q};
      assert [name] + q !in InFront(name, places - {q});
    }
  }

  /** The places below the first `n` fields of a model. */
  ghost function Places(schema: Schema, model: string, n: nat, ms: seq<Mapping>): set<seq<string>>
    requires Closed(schema) && model in schema && n <= |schema[model]|
    decreases Tallest(ms), n
  {
    if n == 0 then {}
    else
      var field := schema[model][n - 1];
      Places(schema, model, n - 1, ms) + {[field.name]} + PlacesBelow(schema, field, ms)
  }

  ghost function PlacesBelow(schema: Schema, field: Field, ms: seq<Mapping>): set<seq<string>>
    requires Closed(schema) && (Nested(field.annotation).Some? ==> Nested(field.annotation).value.1 in schema)
    decreases Tallest(ms), 0
  {
    if !IsCarried(ms, field.name) || Nested(field.annotation) == None then {}
    else
      var (steps, sub) := Nested(field.annotation).value;
      InnerShrinks(ms, field.name, steps);
      InFront(field.name, Places(schema, sub, |schema[sub]|, Inner(ms, field.name, steps)))
  }

  lemma {:induction false} PlacesHead(schema: Schema, model: string, n: nat, ms: seq<Mapping>, place: seq<string>)
    requires Closed(schema) && model in schema && n <= |schema[model]|
    ensures place in Places(schema, model, n, ms)
       <==> place != [] && exists i | 0 <= i < n ::
              place[0] == schema[model][i].name && (place == [place[0]] || place in PlacesBelow(schema, schema[model][i], ms))
    decreases n
  {
    if n > 0 {
      PlacesHead(schema, model, n - 1, ms, place);
      var field := schema[model][n - 1];
      assert place in PlacesBelow(schema, field, ms) ==> place != [] && place[0] == field.name;
      hide PlacesBelow;
    }
  }

  /** No place is counted twice: field names differ, and below a field the places are longer. */
  lemma PlacesApart(schema: Schema, model: string, n: nat, ms: seq<Mapping>)
    requires Closed(schema) && model in schema && 0 < n <= |schema[model]|
    ensures var field := schema[model][n - 1];
            var front, below := Places(schema, model, n - 1, ms), PlacesBelow(schema, field, ms);
            [field.name] !in front && [field.name] !in below && front !! below
  {
    var field := schema[model][n - 1];
    var front, below := Places(schema, model, n - 1, ms), PlacesBelow(schema, field, ms);
    BelowIsLonger(schema, field, ms);
    assert forall i | 0 <= i < n - 1 :: schema[model][i].name != field.name;
    PlacesHead(schema, model, n - 1, ms, [field.name]);
    hide PlacesBelow, Closed;
    forall place | place in below ensures place !in front {
      PlacesHead(schema, model, n - 1, ms, place);
    }
  }

  lemma BelowIsLonger(schema: Schema, field: Field, ms: seq<Mapping>)
    requires Closed(schema) && (Nested(field.annotation).Some? ==> Nested(field.annotation).value.1 in schema)
    ensures forall place | place in PlacesBelow(schema, field, ms) :: |place| > 1 && place[0] == field.name
  {
    if IsCarried(ms, field.name) && Nested(field.annotation).Some? {
      var (steps, sub) := Nested(field.annotation).value;
      PlacesHead(schema, sub, |schema[sub]|, Inner(ms, field.name, steps), []);
    }
  }

  lemma Apart<T>(a: set<T>, x: T, b: set<T>)
    requires x !in a && x !in b && a !! b
    ensures |a + {x} + b| == |a| + 1 + |b|
  {
  }

  lemma {:induction false} PlacesCount(schema: Schema, model: string, n: nat, ms: seq<Mapping>, prefix: string)
    requires Closed(schema) && model in schema && n <= |schema[model]|
    ensures |Places(schema, model, n, ms)| == WalkFields(schema, model, n, ms, prefix).1
    decreases Tallest(ms), n
  {
    if n > 0 {
      PlacesCount(schema, model, n - 1, ms, prefix);
      PlacesBelowCount(schema, schema[model][n - 1], ms, prefix);
      hide PlacesBelow, WalkField, Closed, Places, WalkFields;
      OneMoreField(schema, model, n, ms, prefix);
    }
  }

  lemma OneMoreField(schema: Schema, model: string, n: nat, ms: seq<Mapping>, prefix: string)
    requires Closed(schema) && model in schema && 0 < n <= |schema[model]|
    requires |Places(schema, model, n - 1, ms)| == WalkFields(schema, model, n - 1, ms, prefix).1
    requires |PlacesBelow(schema, schema[model][n - 1], ms)| == WalkField(schema, schema[model][n - 1], ms, prefix).1
    ensures |Places(schema, model, n, ms)| == WalkFields(schema, model, n, ms, prefix).1
  {
    var field := schema[model][n - 1];
    PlacesApart(schema, model, n, ms);
    hide PlacesBelow, WalkField, Closed;
    Apart(Places(schema, model, n - 1, ms), [field.name], PlacesBelow(schema, field, ms));
  }

  lemma {:induction false} PlacesBelowCount(schema: Schema, field: Field, ms: seq<Mapping>, prefix: string)
    requires Closed(schema) && (Nested(field.annotation).Some? ==> Nested(field.annotation).value.1 in schema)
    ensures |PlacesBelow(schema, field, ms)| == WalkField(schema, field, ms, prefix).1
    decreases Tallest(ms), 0
  {
    if IsCarried(ms, field.name) && Nested(field.annotation).Some? {
      var (steps, sub) := Nested(field.annotation).value;
      var inner := Inner(ms, field.name, steps);
      InnerShrinks(ms, field.name, steps);
      PlacesCount(schema, sub, |schema[sub]|, inner, SubPrefix(prefix, field.name, steps));
      InFrontSize(field.name, Places(schema, sub, |schema[sub]|, inner));
    }
  }

  lemma {:induction false} PlacesExactly(schema: Schema, model: string, ms: seq<Mapping>, place: seq<string>)
    requires Closed(schema) && model in schema
    ensures place in Places(schema, model, |schema[model]|, ms) <==> Place(schema, model, ms, place)
    decreases |place|
  {
    var fields := schema[model];
    PlacesHead(schema, model, |fields|, ms, place);
    if place != [] {
      var name, rest := place[0], place[1..];
      assert place == [name] + rest;
      if rest != [] {
        var path := place[..|place| - 1];
        assert path[1..] == rest[..|rest| - 1] && path[0] == name;
        forall i | 0 <= i < |fields| && fields[i].name == name
          ensures place in PlacesBelow(schema, fields[i], ms) <==> Place(schema, model, ms, place)
        {
          AnnotationAt(fields, i);
          PlaceBelow(schema, model, i, ms, place);
        }
        if Place(schema, model, ms, place) { var i :| 0 <= i < |fields| && fields[i].name == name; }
      } else {
        assert place[..0] == [];
      }
    }
  }

  lemma {:induction false} PlaceBelow(schema: Schema, model: string, i: nat, ms: seq<Mapping>, place: seq<string>)
    requires Closed(schema) && model in schema && i < |schema[model]| && |place| > 1 && place[0] == schema[model][i].name
    ensures place in PlacesBelow(schema, schema[model][i], ms) <==> Place(schema, model, ms, place)
    decreases |place|, 0
  {
    var field, rest := schema[model][i], place[1..];
    AnnotationAt(schema[model], i);
    var path := place[..|place| - 1];
    assert path[1..] == rest[..|rest| - 1];
    if IsCarried(ms, field.name) && Nested(field.annotation).Some? {
      var (steps, sub) := Nested(field.annotation).value;
      var inner := Inner(ms, field.name, steps);
      PlacesExactly(schema, sub, inner, rest);
      assert place == [field.name] + rest;
      assert forall q :: ([field.name] + q)[1..] == q;
      assert place in InFront(field.name, Places(schema, sub, |schema[sub]|, inner))
        <==> rest in Places(schema, sub, |schema[sub]|, inner);
    }
  }

  /** The second result of the walk is the number of fields checked: every field of every reached level, once however many instances there are. */
  lemma CheckedExactly(schema: Schema, model: string, ms: seq<Mapping>, prefix: string, places: set<seq<string>>)
    requires Closed(schema) && model in schema && forall place :: place in places <==> Place(schema, model, ms, place)
    ensures Walk(schema, model, ms, prefix).1 == |places|
  {
    PlacesCount(schema, model, |schema[model]|, ms, prefix);
    forall place ensures place in places <==> place in Places(schema, model, |schema[model]|, ms) {
      PlacesExactly(schema, model, ms, place);
    }
    assert places == Places(schema, model, |schema[model]|, ms);
  }

  /** A profile whose `container` holds a model or nothing, and a page that shows it empty. */
  const OPTIONAL: Schema := map["P" := [Field("container", UnionOf([ModelRef("C"), NoneType]))], "C" := [Field("image", Plain)]]

  /** The field inside is missed, and both fields are counted. */
  lemma OptionalIsWalked()
    ensures Closed(OPTIONAL) && Walk(OPTIONAL, "P", [[Entry("container", Dict([]))]], "")
                              == ([Finding("container.image", FieldAbsent)], 2)
  {
    var ms: seq<Mapping> := [[Entry("container", Dict([]))]];
    OptionalClosed();
    OneAbsent();
    OptionalField(ms);
    OptionalForeign(ms);
    hide Nested, Inner, Closed, IsCarried, WalkField, Unknowns, Walk;
    WalkOneField(OPTIONAL, "P", ms, "");
    var f := Finding("container.image", FieldAbsent);
    assert [f] + [] == [f];
  }

  lemma OptionalField(ms: seq<Mapping>)
    requires ms == [[Entry("container", Dict([]))]] && Closed(OPTIONAL)
    ensures OPTIONAL["P"] == [Field("container", UnionOf([ModelRef("C"), NoneType]))]
    ensures WalkField(OPTIONAL, OPTIONAL["P"][0], ms, "") == Walk(OPTIONAL, "C", [[]], "container.")
  {
    OptionalIsTransparent(ModelRef("C"), Plain);
    PlainHoldsNothing();
    OptionalInner(ms);
    assert IsCarried(ms, "container") by { assert ms[0][0].key == "container" && HasKey(ms[0], "container"); }
    assert "" + "container" + "." + Stars(0) == "container.";
    hide Nested, Inner, Closed, IsCarried, Walk;
  }

  /** The walk of a model with one field. */
  lemma WalkOneField(schema: Schema, model: string, ms: seq<Mapping>, prefix: string)
    requires Closed(schema) && model in schema && |schema[model]| == 1
    ensures var (here, more) := WalkField(schema, schema[model][0], ms, prefix);
            Walk(schema, model, ms, prefix) == (here + Unknowns(ms, schema[model], prefix), 1 + more)
  {
    var (here, more) := WalkField(schema, schema[model][0], ms, prefix);
    hide WalkField, Closed, Unknowns;
    assert WalkFields(schema, model, 0, ms, prefix) == ([], 0);
    assert [] + here == here;
    assert WalkFields(schema, model, 1, ms, prefix) == (here, 1 + more);
  }

  lemma OptionalClosed()
    ensures Closed(OPTIONAL)
  {
    OptionalIsTransparent(ModelRef("C"), Plain);
    hide Nested;
    assert Nested(ModelRef("C")).value.1 == "C" && Nested(Plain) == None by { PlainHoldsNothing(); }
  }

  lemma PlainHoldsNothing()
    ensures Nested(ModelRef("C")) == Some(([], "C")) && Nested(Plain) == None
  {
  }

  lemma NoKeys()
    ensures !IsCarried([[]], "image")
  {
  }

  lemma OptionalInner(ms: seq<Mapping>)
    requires ms == [[Entry("container", Dict([]))]]
    ensures Inner(ms, "container", []) == [[]]
  {
    assert HasKey(ms[0], "container") by { assert ms[0][0].key == "container"; }
    assert ValueAt(ms[0], "container") == Dict([]);
    assert Carried(ms, "container") == [Dict([])] by { assert ms[1..] == []; }
    assert Dicts([Dict([])]) == [[]] by { assert [Dict([])][1..] == []; }
  }

  lemma OptionalForeign(ms: seq<Mapping>)
    requires ms == [[Entry("container", Dict([]))]]
    ensures Unknowns(ms, OPTIONAL["P"], "") == []
  {
    assert IsField(OPTIONAL["P"], "container") by { assert OPTIONAL["P"][0].name == "container"; }
    assert ms[..0] == [] && ms[0][..0] == [];
    assert UnknownIn(ms[0], OPTIONAL["P"], "") == [];
  }

  lemma OneAbsent()
    requires Closed(OPTIONAL)
    ensures Walk(OPTIONAL, "C", [[]], "container.") == ([Finding("container.image", FieldAbsent)], 1)
  {
    var none: seq<Mapping> := [[]];
    NoKeys();
    assert none[..0] == [];
    assert UnknownIn([], OPTIONAL["C"], "container.") == [];
    assert Unknowns(none, OPTIONAL["C"], "container.") == [];
    assert "container." + "image" == "container.image";
    hide IsCarried, Closed, Nested;
    assert OPTIONAL["C"] == [Field("image", Plain)];
    assert WalkField(OPTIONAL, Field("image", Plain), none, "container.") == ([Finding("container.image", FieldAbsent)], 0);
    WalkOneField(OPTIONAL, "C", none, "container.");
    var f := Finding("container.image", FieldAbsent);
    assert [f] + [] == [f];
  }

  /** Every field of every model along every schema path is carried by some instance. */
  ghost predicate FullyShown(schema: Schema, model: string, ms: seq<Mapping>)
    requires model in schema
  {
    forall path, name | SchemaPath(schema, model, path) && IsField(schema[ModelAt(schema, model, path)], name) ::
      IsCarried(Instances(schema, model, ms, path), name)
  }

  /** No mapping along any schema path has a key outside its model. */
  ghost predicate NothingForeign(schema: Schema, model: string, ms: seq<Mapping>)
    requires model in schema
  {
    forall path, name | SchemaPath(schema, model, path) && IsCarried(Instances(schema, model, ms, path), name) ::
      IsField(schema[ModelAt(schema, model, path)], name)
  }

  lemma {:induction false} UnreachedHasNoInstances(schema: Schema, model: string, ms: seq<Mapping>, path: seq<string>)
    requires model in schema && SchemaPath(schema, model, path) && !Reached(schema, model, ms, path)
    ensures Instances(schema, model, ms, path) == []
    decreases |path|
  {
    var (steps, sub) := Below(schema, model, path[0]).value;
    var inner := Inner(ms, path[0], steps);
    if IsCarried(ms, path[0]) {
      UnreachedHasNoInstances(schema, sub, inner, path[1..]);
    } else {
      NothingCarried(ms, path[0]);
      DescendNothing(steps);
      assert inner == [];
      NoInstancesBelow(schema, sub, path[1..]);
    }
  }

  lemma {:induction false} NothingCarried(ms: seq<Mapping>, name: string)
    requires !IsCarried(ms, name)
    ensures Carried(ms, name) == []
  {
    if ms != [] {
      assert !HasKey(ms[0], name);
      forall i | 0 <= i < |ms[1..]| ensures !HasKey(ms[1..][i], name) { assert ms[1..][i] == ms[i + 1]; }
      NothingCarried(ms[1..], name);
    }
  }

  lemma {:induction false} DescendNothing(steps: seq<Container>)
    ensures Descend([], steps) == []
  {
    if steps != [] { DescendNothing(steps[1..]); }
  }

  lemma {:induction false} NoInstancesBelow(schema: Schema, model: string, path: seq<string>)
    requires model in schema && SchemaPath(schema, model, path)
    ensures Instances(schema, model, [], path) == []
    decreases |path|
  {
    if path != [] {
      var (steps, sub) := Below(schema, model, path[0]).value;
      DescendNothing(steps);
      NoInstancesBelow(schema, sub, path[1..]);
    }
  }

  /** For an unreached path, the first field on it that no instance carries. */
  lemma {:induction false} FirstGap(schema: Schema, model: string, ms: seq<Mapping>, path: seq<string>)
    returns (before: seq<string>, name: string)
    requires Closed(schema) && model in schema && SchemaPath(schema, model, path) && !Reached(schema, model, ms, path)
    ensures SchemaPath(schema, model, before) && Reached(schema, model, ms, before)
    ensures IsField(schema[ModelAt(schema, model, before)], name)
    ensures !IsCarried(Instances(schema, model, ms, before), name)
    decreases |path|
  {
    if !IsCarried(ms, path[0]) {
      before, name := [], path[0];
    } else {
      var (steps, sub) := Below(schema, model, path[0]).value;
      var rest;
      rest, name := FirstGap(schema, sub, Inner(ms, path[0], steps), path[1..]);
      before := [path[0]] + rest;
      assert before[1..] == rest;
    }
  }

  /** A clean walk means exactly: everything the schema unrolls to is shown, and nothing foreign is present. */
  lemma CleanWalk(schema: Schema, model: string, ms: seq<Mapping>, prefix: string)
    requires Closed(schema) && model in schema
    ensures Walk(schema, model, ms, prefix).0 == []
       <==> FullyShown(schema, model, ms) && NothingForeign(schema, model, ms)
  {
    var findings := Walk(schema, model, ms, prefix).0;
    if findings == [] {
      forall path, name | SchemaPath(schema, model, path) && IsField(schema[ModelAt(schema, model, path)], name)
        ensures IsCarried(Instances(schema, model, ms, path), name)
      {
        if !IsCarried(Instances(schema, model, ms, path), name) {
          MissingIsReported(schema, model, ms, prefix, path, name);
        }
      }
      forall path, name | SchemaPath(schema, model, path) && IsCarried(Instances(schema, model, ms, path), name)
        ensures IsField(schema[ModelAt(schema, model, path)], name)
      {
        if !IsField(schema[ModelAt(schema, model, path)], name) {
          ForeignIsReported(schema, model, ms, prefix, path, name);
        }
      }
    } else {
      var f := findings[0];
      WalkSound(schema, model, ms, prefix, f);
      var path, name :| Justifies(schema, model, ms, prefix, f, path, name);
    }
  }

  lemma MissingIsReported(schema: Schema, model: string, ms: seq<Mapping>, prefix: string, path: seq<string>, name: string)
    requires Closed(schema) && model in schema && SchemaPath(schema, model, path)
    requires IsField(schema[ModelAt(schema, model, path)], name)
    requires !IsCarried(Instances(schema, model, ms, path), name)
    ensures exists f :: f in Walk(schema, model, ms, prefix).0 && f.code == FieldAbsent
  {
    var p, n := path, name;
    if !Reached(schema, model, ms, path) {
      p, n := FirstGap(schema, model, ms, path);
    }
    var f := Finding(LevelPrefix(schema, model, prefix, p) + n, FieldAbsent);
    assert Justifies(schema, model, ms, prefix, f, p, n);
    WalkComplete(schema, model, ms, prefix, f, p, n);
  }

  lemma ForeignIsReported(schema: Schema, model: string, ms: seq<Mapping>, prefix: string, path: seq<string>, name: string)
    requires Closed(schema) && model in schema && SchemaPath(schema, model, path)
    requires IsCarried(Instances(schema, model, ms, path), name)
    requires !IsField(schema[ModelAt(schema, model, path)], name)
    ensures Finding(LevelPrefix(schema, model, prefix, path) + name, KeyNotInModel) in Walk(schema, model, ms, prefix).0
  {
    if !Reached(schema, model, ms, path) {
      UnreachedHasNoInstances(schema, model, ms, path);
      assert false;
    }
    var f := Finding(LevelPrefix(schema, model, prefix, path) + name, KeyNotInModel);
    assert Justifies(schema, model, ms, prefix, f, path, name);
    WalkComplete(schema, model, ms, prefix, f, path, name);
  }

  // ----- recursive schemas

  /** A reached path is no longer than the document is tall. */
  lemma {:induction false} ReachedIsShort(schema: Schema, model: string, ms: seq<Mapping>, path: seq<string>)
    requires model in schema && SchemaPath(schema, model, path) && Reached(schema, model, ms, path)
    ensures |path| <= Tallest(ms)
    decreases |path|
  {
    if path != [] {
      var (steps, sub) := Below(schema, model, path[0]).value;
      InnerShrinks(ms, path[0], steps);
      ReachedIsShort(schema, sub, Inner(ms, path[0], steps), path[1..]);
    }
  }

  lemma {:induction false} PathsCompose(schema: Schema, model: string, p: seq<string>, q: seq<string>)
    requires model in schema && SchemaPath(schema, model, p)
    requires SchemaPath(schema, ModelAt(schema, model, p), q)
    ensures SchemaPath(schema, model, p + q)
    ensures ModelAt(schema, model, p + q) == ModelAt(schema, ModelAt(schema, model, p), q)
    decreases |p|
  {
    if p == [] {
      assert p + q == q;
    } else {
      assert (p + q)[1..] == p[1..] + q;
      PathsCompose(schema, Below(schema, model, p[0]).value.1, p[1..], q);
    }
  }

  /** A schema that comes back to a model it has passed has schema paths of every length. */
  lemma {:induction false} Unroll(schema: Schema, model: string, p: seq<string>, cycle: seq<string>, n: nat)
    returns (path: seq<string>)
    requires model in schema && SchemaPath(schema, model, p) && cycle != []
    requires var m := ModelAt(schema, model, p); SchemaPath(schema, m, cycle) && ModelAt(schema, m, cycle) == m
    ensures SchemaPath(schema, model, path) && |path| >= n
    ensures ModelAt(schema, model, path) == ModelAt(schema, model, p)
    decreases n
  {
    path := p;
    if n > 0 {
      path := Unroll(schema, model, p, cycle, n - 1);
      PathsCompose(schema, model, path, cycle);
      path := path + cycle;
    }
  }

  /** So under a recursive schema the walk, though it always ends, never ends clean: some field is reported absent. */
  lemma RecursiveNeverClean(schema: Schema, model: string, ms: seq<Mapping>, prefix: string,
                            p: seq<string>, cycle: seq<string>)
    requires Closed(schema) && model in schema && SchemaPath(schema, model, p) && cycle != []
    requires var m := ModelAt(schema, model, p); SchemaPath(schema, m, cycle) && ModelAt(schema, m, cycle) == m
    ensures exists f :: f in Walk(schema, model, ms, prefix).0 && f.code == FieldAbsent
  {
    var path := Unroll(schema, model, p, cycle, Tallest(ms) + 1);
    if Reached(schema, model, ms, path) {
      ReachedIsShort(schema, model, ms, path);
      assert false;
    }
    var before, name := FirstGap(schema, model, ms, path);
    MissingIsReported(schema, model, ms, prefix, before, name);
  }
}
