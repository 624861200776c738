/**
 The location language of the currency check: validation errors name concrete keys and
 indices, the walk names starred locations, and `check_profile` drops the errors the walk
 has already reported.
 */
module ProfileReport {
  import opened Wrappers
  import opened ProfileWalk

  /** A step of a validation location: a mapping key (or any text segment), or a list index. */
  datatype Segment = Key(name: string) | Index(i: nat)

  function Digit(d: nat): char
    requires d < 10
  {
    "0123456789"[d]
  }

  function Decimal(n: nat): string {
    if n < 10 then [Digit(n)] else Decimal(n / 10) + [Digit(n % 10)]
  }

  function Text(seg: Segment): string {
    match seg
    case Key(name) => name
    case Index(i) => Decimal(i)
  }

  /** `".".join(parts)`. */
  function Join(parts: seq<string>): string {
    if parts == [] then "" else if |parts| == 1 then parts[0] else parts[0] + "." + Join(parts[1..])
  }

  function StarParts(n: nat): seq<string> {
    if n == 0 then [] else ["*"] + StarParts(n - 1)
  }

  function Min(a: nat, b: nat): nat {
    if a < b then a else b
  }

  /** How the next segment renders: its parts, the model they lead to, and how many segments they use up. */
  function Consume(schema: Schema, current: Option<string>, loc: seq<Segment>): (r: (seq<string>, Option<string>, nat))
    requires Closed(schema) && (current.Some? ==> current.value in schema) && loc != []
    ensures r.1.Some? ==> r.1.value in schema
    ensures 0 < r.2 <= |loc|
  {
    var nested := if current.Some? && loc[0].Key? then Below(schema, current.value, loc[0].name) else None;
    match nested
    case None => ([Text(loc[0])], None, 1)
    case Some((steps, sub)) =>
      BelowInSchema(schema, current.value, loc[0].name);
      var k := Min(|steps|, |loc| - 1);
      ([Text(loc[0])] + StarParts(k), Some(sub), 1 + k)
  }

  /** The rendering of a validation location; `current` is lost once a segment names no nested field. */
  function Parts(schema: Schema, current: Option<string>, loc: seq<Segment>): seq<string>
    requires Closed(schema) && (current.Some? ==> current.value in schema)
    decreases |loc|
  {
    if loc == [] then []
    else
      var (here, next, n) := Consume(schema, current, loc);
      here + Parts(schema, next, loc[n..])
  }

  lemma NoParts(schema: Schema, current: Option<string>)
    requires Closed(schema) && (current.Some? ==> current.value in schema)
    ensures Parts(schema, current, []) == []
  {
  }

  lemma PartsFirst(schema: Schema, current: Option<string>, loc: seq<Segment>)
    requires Closed(schema) && (current.Some? ==> current.value in schema) && loc != []
    ensures var (here, next, n) := Consume(schema, current, loc);
            Parts(schema, current, loc) == here + Parts(schema, next, loc[n..])
  {
    hide Consume, Closed;
  }

  lemma PartsStep(schema: Schema, current: Option<string>, loc: seq<Segment>, i: nat, before: seq<string>)
    requires Closed(schema) && (current.Some? ==> current.value in schema) && i < |loc|
    ensures var (here, next, n) := Consume(schema, current, loc[i..]);
            before + Parts(schema, current, loc[i..]) == before + here + Parts(schema, next, loc[i + n..])
  {
    hide Consume, Closed, Parts;
    PartsFirst(schema, current, loc[i..]);
    var (here, next, n) := Consume(schema, current, loc[i..]);
    assert loc[i..][n..] == loc[i + n..];
    Regroup(before, here, Parts(schema, next, loc[i + n..]));
  }

  lemma Regroup(a: seq<string>, b: seq<string>, c: seq<string>)
    ensures a + (b + c) == a + b + c
  {
  }

  // ----- what a location renders to

  /** The digits of a number, read from the left. */
  ghost function ReadDecimal(s: string): nat {
    if s == "" then 0
    else
      var d := s[|s| - 1] as int - '0' as int;
      10 * ReadDecimal(s[..|s| - 1]) + if 0 <= d < 10 then d else 0
  }

  /** An index renders as its decimal digits, without leading zeros. */
  lemma {:induction false} DecimalReads(n: nat)
    ensures ReadDecimal(Decimal(n)) == n && Decimal(n) != ""
    ensures forall i | 0 <= i < |Decimal(n)| :: '0' <= Decimal(n)[i] <= '9'
    ensures n > 0 ==> Decimal(n)[0] != '0'
  {
    assert forall d: nat | d < 10 :: Digit(d) as int == '0' as int + d;
    if n >= 10 {
      DecimalReads(n / 10);
      assert Decimal(n)[..|Decimal(n)| - 1] == Decimal(n / 10);
    } else {
      assert Decimal(n)[..0] == "";
    }
  }

  /** Every segment renders to one part: itself, or a star in its place; the first is always itself. */
  lemma {:induction false} PartsAlign(schema: Schema, current: Option<string>, loc: seq<Segment>)
    requires Closed(schema) && (current.Some? ==> current.value in schema)
    ensures |Parts(schema, current, loc)| == |loc|
    ensures forall i | 0 <= i < |loc| :: Parts(schema, current, loc)[i] == Text(loc[i]) || Parts(schema, current, loc)[i] == "*"
    ensures loc != [] ==> Parts(schema, current, loc)[0] == Text(loc[0])
    decreases |loc|
  {
    if loc != [] {
      var (here, next, n) := Consume(schema, current, loc);
      StarPartsAre(n - 1);
      PartsFirst(schema, current, loc);
      assert here == [Text(loc[0])] + StarParts(n - 1);
      hide Consume, Closed, Parts;
      PartsAlign(schema, next, loc[n..]);
    }
  }

  lemma {:induction false} StarPartsAre(n: nat)
    ensures |StarParts(n)| == n && forall i | 0 <= i < n :: StarParts(n)[i] == "*"
  {
    if n > 0 { StarPartsAre(n - 1); }
  }

  /** Outside the models, and from the first segment on that names no nested field, a location renders as it is. */
  lemma {:induction false} PartsOutside(schema: Schema, current: Option<string>, loc: seq<Segment>)
    requires Closed(schema) && (current.Some? ==> current.value in schema)
    requires current.Some? && loc != [] && loc[0].Key? ==>
               !exists i, steps, sub :: 0 <= i < |schema[current.value]| && schema[current.value][i].name == loc[0].name
                                        && Holds(schema[current.value][i].annotation, steps, sub)
    ensures |Parts(schema, current, loc)| == |loc|
    ensures forall i | 0 <= i < |loc| :: Parts(schema, current, loc)[i] == Text(loc[i])
    decreases |loc|
  {
    PartsAlign(schema, current, loc);
    if loc != [] {
      assert Consume(schema, current, loc) == ([Text(loc[0])], None, 1) by {
        if current.Some? && loc[0].Key? && Below(schema, current.value, loc[0].name).Some? {
          var i :| 0 <= i < |schema[current.value]| && schema[current.value][i].name == loc[0].name;
          AnnotationAt(schema[current.value], i);
          var (steps, sub) := Below(schema, current.value, loc[0].name).value;
          NestedExactly(schema[current.value][i].annotation, steps, sub);
        }
      }
      hide Consume, Closed;
      PartsAlign(schema, None, loc[1..]);
      PartsOutside(schema, None, loc[1..]);
    }
  }

  /** A location that ends inside a nested field's containers: the segments behind the field's name are starred. */
  lemma {:induction false} PartsInside(schema: Schema, model: string, i: nat, loc: seq<Segment>, steps: seq<Container>, sub: string)
    requires Closed(schema) && model in schema && i < |schema[model]| && Holds(schema[model][i].annotation, steps, sub)
    requires loc != [] && loc[0] == Key(schema[model][i].name) && |loc| <= |steps| + 1
    ensures |Parts(schema, Some(model), loc)| == |loc| && Parts(schema, Some(model), loc)[0] == schema[model][i].name
    ensures forall k | 0 < k < |loc| :: Parts(schema, Some(model), loc)[k] == "*"
  {
    AnnotationAt(schema[model], i);
    NestedExactly(schema[model][i].annotation, steps, sub);
    var n := |loc| - 1;
    assert Consume(schema, Some(model), loc) == ([Text(loc[0])] + StarParts(n), Some(sub), 1 + n);
    StarPartsAre(n);
    NoParts(schema, Some(sub));
    assert loc[1 + n..] == [];
  }

  /** The rendering as written: an index over the location, the current model, and the parts so far. */
  method WalkLocation(schema: Schema, model: string, loc: seq<Segment>) returns (text: string)
    requires Closed(schema) && model in schema
    ensures text == Join(Parts(schema, Some(model), loc))
  {
    hide Parts, Consume, Closed, Join;
    var parts: seq<string> := [];
    var current := Some(model);
    var i := 0;
    ghost var all := Parts(schema, Some(model), loc);
    assert loc[0..] == loc && parts + all == all;
    while i < |loc|
      invariant i <= |loc| && (current.Some? ==> current.value in schema)
      invariant all == parts + Parts(schema, current, loc[i..])
    {
      PartsStep(schema, current, loc, i, parts);
      parts, current, i := RenderSegment(schema, current, loc, i, parts);
    }
    NoParts(schema, current);
    assert loc[i..] == [];
    assert all == parts + [] == parts;
    text := Join(parts);
  }

  /** One round: the segment itself, then one `*` per container step of the field it names. */
  method RenderSegment(schema: Schema, current: Option<string>, loc: seq<Segment>, i: nat, before: seq<string>)
    returns (parts: seq<string>, next: Option<string>, j: nat)
    requires Closed(schema) && (current.Some? ==> current.value in schema) && i < |loc|
    ensures var (here, sub, n) := Consume(schema, current, loc[i..]);
            parts == before + here && next == sub && j == i + n
  {
    var seg := loc[i];
    parts, j := before + [Text(seg)], i + 1;
    if current == None || !(seg.Key? && IsField(schema[current.value], seg.name)) {
      return parts, None, j;
    }
    var nested := Nested(AnnotationOf(schema[current.value], seg.name));
    if nested == None {
      return parts, None, j;
    }
    var (steps, sub) := nested.value;
    parts, j := AppendStars(parts, steps, j, |loc|);
    next := Some(sub);
  }

  /** One `*` per container step, stopping at the end of the location. */
  method AppendStars(before: seq<string>, steps: seq<Container>, start: nat, end: nat) returns (parts: seq<string>, i: nat)
    requires start <= end
    ensures parts == before + StarParts(Min(|steps|, end - start)) && i == start + Min(|steps|, end - start)
  {
    parts, i := before, start;
    for s := 0 to |steps|
      invariant i == start + s <= end
      invariant parts == before + StarParts(s)
    {
      if i >= end {
        return;
      }
      StarsSnoc(s);
      parts := parts + ["*"];
      i := i + 1;
    }
  }

  lemma {:induction false} StarsSnoc(n: nat)
    ensures StarParts(n + 1) == StarParts(n) + ["*"]
  {
    if n > 0 { StarsSnoc(n - 1); }
  }

  // ----- concrete paths through the document

  /** The value reached by opening one concrete key or index per container step. */
  function Enter(d: Doc, steps: seq<Container>, loc: seq<Segment>): Option<Doc>
    requires |steps| == |loc|
    decreases |steps|
  {
    if steps == [] then Some(d)
    else if steps[0] == ByKey && d.Dict? && loc[0].Key? && HasKey(d.entries, loc[0].name) then
      Enter(ValueAt(d.entries, loc[0].name), steps[1..], loc[1..])
    else if steps[0] == ByIndex && d.Sequence? && loc[0].Index? && loc[0].i < |d.items| then
      Enter(d.items[loc[0].i], steps[1..], loc[1..])
    else None
  }

  /** The model and mapping a concrete location leads to, going through nested models only. */
  function Follow(schema: Schema, model: string, m: Mapping, loc: seq<Segment>): Option<(string, Mapping)>
    requires Closed(schema) && model in schema
    decreases |loc|
  {
    if loc == [] then Some((model, m))
    else if !loc[0].Key? || Below(schema, model, loc[0].name) == None || !HasKey(m, loc[0].name) then None
    else
      var (steps, sub) := Below(schema, model, loc[0].name).value;
      BelowInSchema(schema, model, loc[0].name);
      if |loc| - 1 < |steps| then None
      else
        match Enter(ValueAt(m, loc[0].name), steps, loc[1..|steps| + 1])
        case Some(Dict(entries)) => Follow(schema, sub, entries, loc[|steps| + 1..])
        case _ => None
  }

  lemma {:induction false} EnterDescends(level: seq<Doc>, d: Doc, steps: seq<Container>, loc: seq<Segment>)
    requires |steps| == |loc| && d in level && Enter(d, steps, loc).Some?
    ensures Enter(d, steps, loc).value in Descend(level, steps)
    decreases |steps|
  {
    if steps != [] {
      var next := if d.Dict? then ValueAt(d.entries, loc[0].name) else d.items[loc[0].i];
      if d.Dict? { ValuesHolds(d.entries, next); }
      OpenAllHolds(level, steps[0], next);
      EnterDescends(OpenAll(level, steps[0]), next, steps[1..], loc[1..]);
    }
  }

  lemma JoinFront(part: string, rest: seq<string>)
    requires rest != []
    ensures Join([part] + rest) == part + "." + Join(rest)
  {
    assert ([part] + rest)[1..] == rest;
  }

  lemma StarInFront(stars: string, rest: string)
    ensures "*" + "." + (stars + rest) == "*." + stars + rest
  {
  }

  lemma {:induction false} JoinStars(n: nat, rest: seq<string>)
    requires rest != []
    ensures Join(StarParts(n) + rest) == Stars(n) + Join(rest)
  {
    if n == 0 {
      assert StarParts(n) + rest == rest;
    } else {
      hide Join;
      var more := StarParts(n - 1) + rest;
      assert StarParts(n) + rest == ["*"] + more;
      JoinStars(n - 1, rest);
      JoinFront("*", more);
      StarInFront(Stars(n - 1), Join(rest));
    }
  }

  /**
   The schema path leads to where the concrete location leads; the walk reaches it and visits the
   mapping there, and the rendering of the location with a key behind it is the walk's location of that key.
   */
  ghost predicate VisitedAt(schema: Schema, model: string, ms: seq<Mapping>, prefix: string,
                            m: Mapping, loc: seq<Segment>, key: string, path: seq<string>)
    requires Closed(schema) && model in schema && Follow(schema, model, m, loc).Some?
  {
    var (sub, inner) := Follow(schema, model, m, loc).value;
    && SchemaPath(schema, model, path) && Reached(schema, model, ms, path)
    && ModelAt(schema, model, path) == sub
    && inner in Instances(schema, model, ms, path)
    && prefix + Join(Parts(schema, Some(model), loc + [Key(key)])) == LevelPrefix(schema, model, prefix, path) + key
  }

  /**
   Along a concrete location the rendering of the location and the prefix the walk builds are
   the same text, and the mapping found there is one the walk visits under that prefix.
   */
  lemma {:induction false} FollowIsVisited(schema: Schema, model: string, ms: seq<Mapping>, prefix: string,
                                           m: Mapping, loc: seq<Segment>, key: string)
    returns (path: seq<string>)
    requires Closed(schema) && model in schema && m in ms && Follow(schema, model, m, loc).Some?
    ensures VisitedAt(schema, model, ms, prefix, m, loc, key, path)
    decreases |loc|
  {
    hide VisitedAt, Follow, Below, Closed, Enter, ValueAt, HasKey, Inner, SubPrefix, IsCarried;
    if loc == [] {
      path := [];
      VisitedHere(schema, model, ms, prefix, m, key);
    } else {
      FollowSplits(schema, model, m, loc);
      var name := loc[0].name;
      var (steps, sub) := Below(schema, model, name).value;
      var n := |steps|;
      var found := Enter(ValueAt(m, name), steps, loc[1..n + 1]).value;
      EnteredIsInner(ms, m, name, steps, loc[1..n + 1]);
      var rest := FollowIsVisited(schema, sub, Inner(ms, name, steps), SubPrefix(prefix, name, steps),
                                  found.entries, loc[n + 1..], key);
      path := [name] + rest;
      VisitedBelow(schema, model, ms, prefix, m, loc, key, rest);
    }
  }

  lemma VisitedHere(schema: Schema, model: string, ms: seq<Mapping>, prefix: string, m: Mapping, key: string)
    requires Closed(schema) && model in schema && m in ms
    ensures Follow(schema, model, m, []).Some? && VisitedAt(schema, model, ms, prefix, m, [], key, [])
  {
    OnePart(schema, Some(model), [Key(key)]);
    assert [] + [Key(key)] == [Key(key)];
  }

  /** What holds of the location behind one field's value holds of the whole. */
  lemma VisitedBelow(schema: Schema, model: string, ms: seq<Mapping>, prefix: string,
                     m: Mapping, loc: seq<Segment>, key: string, rest: seq<string>)
    requires Closed(schema) && model in schema && m in ms && loc != [] && Follow(schema, model, m, loc).Some?
    requires loc[0].Key? && Below(schema, model, loc[0].name).Some? && HasKey(m, loc[0].name) && IsCarried(ms, loc[0].name)
    requires var (steps, sub) := Below(schema, model, loc[0].name).value;
             && sub in schema && |steps| < |loc|
             && var d := Enter(ValueAt(m, loc[0].name), steps, loc[1..|steps| + 1]);
                && d.Some? && d.value.Dict?
                && Follow(schema, model, m, loc) == Follow(schema, sub, d.value.entries, loc[|steps| + 1..])
                && VisitedAt(schema, sub, Inner(ms, loc[0].name, steps), SubPrefix(prefix, loc[0].name, steps),
                             d.value.entries, loc[|steps| + 1..], key, rest)
    ensures VisitedAt(schema, model, ms, prefix, m, loc, key, [loc[0].name] + rest)
  {
    hide Parts, Join, Enter, SchemaPath, Reached, ModelAt, Instances, LevelPrefix, Follow, Below, Closed, Inner, SubPrefix, HasKey;
    var name, path, whole := loc[0].name, [loc[0].name] + rest, loc + [Key(key)];
    var n := |Below(schema, model, name).value.0|;
    assert path[1..] == rest && path[0] == name;
    OneLevelDown(schema, model, ms, prefix, path);
    assert whole[n + 1..] == loc[n + 1..] + [Key(key)] && whole[0] == loc[0];
    PartsDescend(schema, model, prefix, whole);
  }

  /** Following a longer location enters one field's value and goes on from the mapping there. */
  lemma FollowSplits(schema: Schema, model: string, m: Mapping, loc: seq<Segment>)
    requires Closed(schema) && model in schema && loc != [] && Follow(schema, model, m, loc).Some?
    ensures loc[0].Key? && Below(schema, model, loc[0].name).Some? && HasKey(m, loc[0].name)
    ensures var (steps, sub) := Below(schema, model, loc[0].name).value;
            && sub in schema && |steps| < |loc|
            && var d := Enter(ValueAt(m, loc[0].name), steps, loc[1..|steps| + 1]);
               d.Some? && d.value.Dict?
               && Follow(schema, model, m, loc) == Follow(schema, sub, d.value.entries, loc[|steps| + 1..])
  {
    BelowInSchema(schema, model, loc[0].name);
    hide Enter, Below, Closed;
  }

  /** What a path reaches is what its tail reaches one level down. */
  lemma OneLevelDown(schema: Schema, model: string, ms: seq<Mapping>, prefix: string, path: seq<string>)
    requires model in schema && path != [] && IsCarried(ms, path[0])
    requires Below(schema, model, path[0]).Some?
    requires var sub := Below(schema, model, path[0]).value.1; sub in schema && SchemaPath(schema, sub, path[1..])
    requires var (steps, sub) := Below(schema, model, path[0]).value;
             Reached(schema, sub, Inner(ms, path[0], steps), path[1..])
    ensures SchemaPath(schema, model, path) && Reached(schema, model, ms, path)
    ensures var (steps, sub) := Below(schema, model, path[0]).value;
            && ModelAt(schema, model, path) == ModelAt(schema, sub, path[1..])
            && Instances(schema, model, ms, path) == Instances(schema, sub, Inner(ms, path[0], steps), path[1..])
            && LevelPrefix(schema, model, prefix, path)
            == LevelPrefix(schema, sub, SubPrefix(prefix, path[0], steps), path[1..])
  {
    hide Below, Inner, SubPrefix;
  }

  lemma EnteredIsInner(ms: seq<Mapping>, m: Mapping, name: string, steps: seq<Container>, loc: seq<Segment>)
    requires m in ms && HasKey(m, name) && |steps| == |loc|
    requires var d := Enter(ValueAt(m, name), steps, loc); d.Some? && d.value.Dict?
    ensures IsCarried(ms, name)
    ensures Enter(ValueAt(m, name), steps, loc).value.entries in Inner(ms, name, steps)
  {
    var d := ValueAt(m, name);
    var i :| 0 <= i < |ms| && ms[i] == m;
    CarriedHolds(ms, name, d);
    EnterDescends(Carried(ms, name), d, steps, loc);
    DictsHolds(Descend(Carried(ms, name), steps), Enter(d, steps, loc).value.entries);
  }

  /** Rendering through a nested field and its containers is the walk's prefix, then the rendering of what is left. */
  lemma PartsDescend(schema: Schema, model: string, prefix: string, loc: seq<Segment>)
    requires Closed(schema) && model in schema && loc != [] && loc[0].Key?
    requires Below(schema, model, loc[0].name).Some? && |loc| > 1 + |Below(schema, model, loc[0].name).value.0|
    ensures var (steps, sub) := Below(schema, model, loc[0].name).value;
            && sub in schema
            && prefix + Join(Parts(schema, Some(model), loc))
            == SubPrefix(prefix, loc[0].name, steps) + Join(Parts(schema, Some(sub), loc[|steps| + 1..]))
  {
    var name := loc[0].name;
    var (steps, sub) := Below(schema, model, name).value;
    BelowInSchema(schema, model, name);
    var n := |steps|;
    var deeper := Parts(schema, Some(sub), loc[n + 1..]);
    var (here, next, k) := Consume(schema, Some(model), loc);
    assert here == [name] + StarParts(n) && next == Some(sub) && k == n + 1;
    assert deeper != [] by { var (h, _, _) := Consume(schema, Some(sub), loc[n + 1..]); assert h != []; }
    PrefixJoin(prefix, name, n, deeper);
    assert here + deeper == [name] + (StarParts(n) + deeper);
  }

  /** A single segment renders as itself, whatever it names. */
  lemma OnePart(schema: Schema, current: Option<string>, loc: seq<Segment>)
    requires Closed(schema) && (current.Some? ==> current.value in schema) && |loc| == 1
    ensures Parts(schema, current, loc) == [Text(loc[0])]
  {
    var (here, next, n) := Consume(schema, current, loc);
    assert StarParts(0) == [] && loc[n..] == [];
    assert here == [Text(loc[0])];
  }

  lemma PrefixJoin(prefix: string, name: string, n: nat, deeper: seq<string>)
    requires deeper != []
    ensures prefix + Join([name] + (StarParts(n) + deeper)) == prefix + name + "." + Stars(n) + Join(deeper)
  {
    var rest := StarParts(n) + deeper;
    hide Join, StarParts, Stars;
    JoinFront(name, rest);
    JoinStars(n, deeper);
  }

  // ----- check_profile

  datatype ErrorKind = ExtraForbidden | Other
  datatype ValidationError = ValidationError(kind: ErrorKind, loc: seq<Segment>)

  /** A reported reason: one of the walk's, or a failed validation at the error's own location. */
  datatype Report = Walked(finding: Finding) | Invalid(loc: seq<Segment>)

  function AsReports(findings: seq<Finding>): seq<Report> {
    if findings == [] then [] else AsReports(findings[..|findings| - 1]) + [Walked(findings[|findings| - 1])]
  }

  /** What `check_profile` adds for one validation error, given the locations where the walk found unknown keys. */
  function Extra(schema: Schema, model: string, known: set<string>, e: ValidationError): seq<Report>
    requires Closed(schema) && model in schema
  {
    if e.kind == Other then [Invalid(e.loc)]
    else
      var at := Join(Parts(schema, Some(model), e.loc));
      if at in known then [] else [Walked(Finding(at, KeyNotInModel))]
  }

  function Extras(schema: Schema, model: string, known: set<string>, errors: seq<ValidationError>): seq<Report>
    requires Closed(schema) && model in schema
  {
    if errors == [] then []
    else
      var n := |errors| - 1;
      Extras(schema, model, known, errors[..n]) + Extra(schema, model, known, errors[n])
  }

  function UnknownLocations(findings: seq<Finding>): set<string> {
    set i | 0 <= i < |findings| && findings[i].code == KeyNotInModel :: findings[i].location
  }

  function FullReport(schema: Schema, model: string, profile: Mapping, errors: seq<ValidationError>): seq<Report>
    requires Closed(schema) && model in schema
  {
    var findings := Walk(schema, model, [profile], "").0;
    AsReports(findings) + Extras(schema, model, UnknownLocations(findings), errors)
  }

  method CheckProfile(schema: Schema, model: string, profile: Mapping, errors: seq<ValidationError>)
    returns (reports: seq<Report>, checked: nat)
    requires Closed(schema) && model in schema
    ensures reports == FullReport(schema, model, profile, errors)
    ensures checked == Walk(schema, model, [profile], "").1
  {
    hide Parts, Join, Walk, Closed, AsReports;
    var findings;
    findings, checked := WalkModel(schema, model, [profile], "");
    var walkedUnknown := set i | 0 <= i < |findings| && findings[i].code == KeyNotInModel :: findings[i].location;
    reports := AsReports(findings);
    for j := 0 to |errors|
      invariant reports == AsReports(findings) + Extras(schema, model, walkedUnknown, errors[..j])
    {
      assert errors[..j + 1][..j] == errors[..j];
      var e := errors[j];
      if e.kind == ExtraForbidden {
        var where := WalkLocation(schema, model, e.loc);
        if where in walkedUnknown {
          continue;
        }
        reports := reports + [Walked(Finding(where, KeyNotInModel))];
        continue;
      }
      reports := reports + [Invalid(e.loc)];
    }
    assert errors[..|errors|] == errors;
  }

  lemma {:induction false} AsReportsHolds(findings: seq<Finding>, f: Finding)
    ensures Walked(f) in AsReports(findings) <==> f in findings
  {
    if findings != [] {
      var n := |findings| - 1;
      AsReportsHolds(findings[..n], f);
      assert findings == findings[..n] + [findings[n]];
    }
  }

  lemma {:induction false} ExtrasHold(schema: Schema, model: string, known: set<string>, errors: seq<ValidationError>, r: Report)
    requires Closed(schema) && model in schema
    ensures r in Extras(schema, model, known, errors) <==> exists e | e in errors :: r in Extra(schema, model, known, e)
  {
    if errors != [] {
      var n := |errors| - 1;
      ExtrasHold(schema, model, known, errors[..n], r);
      assert forall e :: e in errors <==> e in errors[..n] || e == errors[n];
    }
  }

  /** No unknown key is lost: whatever the levels, the location of every extra-key error is reported. */
  lemma NoErrorLost(schema: Schema, model: string, profile: Mapping, errors: seq<ValidationError>, e: ValidationError)
    requires Closed(schema) && model in schema && e in errors
    ensures e.kind == ExtraForbidden ==>
              Walked(Finding(Join(Parts(schema, Some(model), e.loc)), KeyNotInModel)) in FullReport(schema, model, profile, errors)
    ensures e.kind == Other ==> Invalid(e.loc) in FullReport(schema, model, profile, errors)
  {
    var findings := Walk(schema, model, [profile], "").0;
    var known := UnknownLocations(findings);
    if e.kind == Other {
      ExtrasHold(schema, model, known, errors, Invalid(e.loc));
    } else {
      var f := Finding(Join(Parts(schema, Some(model), e.loc)), KeyNotInModel);
      ExtrasHold(schema, model, known, errors, Walked(f));
      AsReportsHolds(findings, f);
    }
  }

  /** The page is reported current exactly when the walk is clean and the model accepts it. */
  lemma CurrentExactly(schema: Schema, model: string, profile: Mapping, errors: seq<ValidationError>)
    requires Closed(schema) && model in schema
    ensures FullReport(schema, model, profile, errors) == []
       <==> FullyShown(schema, model, [profile]) && NothingForeign(schema, model, [profile]) && errors == []
  {
    var findings := Walk(schema, model, [profile], "").0;
    CleanWalk(schema, model, [profile], "");
    if findings != [] {
      AsReportsHolds(findings, findings[0]);
      assert Walked(findings[0]) in FullReport(schema, model, profile, errors);
    } else if errors != [] {
      NoErrorLost(schema, model, profile, errors, errors[0]);
    }
  }

  /** An error for an unknown key at a level the walk reached is dropped: the walk has printed that very location. */
  lemma ReachedErrorDropped(schema: Schema, model: string, profile: Mapping, loc: seq<Segment>, key: string)
    requires Closed(schema) && model in schema && Follow(schema, model, profile, loc).Some?
    requires var (sub, m) := Follow(schema, model, profile, loc).value;
             sub in schema && HasKey(m, key) && !IsField(schema[sub], key)
    ensures var known := UnknownLocations(Walk(schema, model, [profile], "").0);
            Extra(schema, model, known, ValidationError(ExtraForbidden, loc + [Key(key)])) == []
  {
    var ms := [profile];
    var path := FollowIsVisited(schema, model, ms, "", profile, loc, key);
    var (sub, m) := Follow(schema, model, profile, loc).value;
    var found := Instances(schema, model, ms, path);
    var i :| 0 <= i < |found| && found[i] == m;
    var at := Join(Parts(schema, Some(model), loc + [Key(key)]));
    assert "" + at == at;
    ForeignIsReported(schema, model, ms, "", path, key);
    assert Finding(at, KeyNotInModel) in Walk(schema, model, ms, "").0;
  }

  // ----- how far a dropped error can be trusted to name the same place

  ghost predicate DotFree(parts: seq<string>) {
    forall i | 0 <= i < |parts| :: '.' !in parts[i]
  }

  lemma Head(b: string, y: string)
    ensures (b + "." + y)[0] == if b == "" then '.' else b[0]
  {
  }

  lemma {:induction false} FirstDot(a: string, b: string, x: string, y: string)
    requires '.' !in a && '.' !in b && a + "." + x == b + "." + y
    ensures a == b && x == y
    decreases |a|
  {
    var s, t := a + "." + x, b + "." + y;
    if a == "" {
      assert s[0] == '.';
      Head(b, y);
      assert x == s[1..] && y == t[1..];
    } else {
      assert s[0] == a[0];
      assert b != "" && b[0] == a[0];
      assert s[1..] == a[1..] + "." + x && t[1..] == b[1..] + "." + y;
      FirstDot(a[1..], b[1..], x, y);
      assert a == [a[0]] + a[1..] && b == [b[0]] + b[1..];
    }
  }

  lemma JoinHasDot(parts: seq<string>)
    requires parts != [] && DotFree(parts)
    ensures '.' in Join(parts) <==> |parts| > 1
  {
    if |parts| > 1 { assert Join(parts)[|parts[0]|] == '.'; }
  }

  /** Without dots in keys, locations with equal text are equal part by part, so a drop never hides another place. */
  lemma {:induction false} LocationsDistinct(a: seq<string>, b: seq<string>)
    requires a != [] && b != [] && DotFree(a) && DotFree(b) && Join(a) == Join(b)
    ensures a == b
    decreases |a|
  {
    JoinHasDot(a);
    JoinHasDot(b);
    if |a| == 1 || |b| == 1 {
      assert |a| == |b| == 1;
    } else {
      FirstDot(a[0], b[0], Join(a[1..]), Join(b[1..]));
      LocationsDistinct(a[1..], b[1..]);
      assert a == [a[0]] + a[1..] && b == [b[0]] + b[1..];
    }
  }

  // ----- exactly which errors are dropped

  /** The parts of the level a schema path leads to: each field, and one `*` per container it goes through. */
  function LevelParts(schema: Schema, model: string, path: seq<string>): seq<string>
    requires model in schema && SchemaPath(schema, model, path)
    decreases |path|
  {
    if path == [] then []
    else
      var (steps, sub) := Below(schema, model, path[0]).value;
      [path[0]] + (StarParts(|steps|) + LevelParts(schema, sub, path[1..]))
  }

  /** The walk's location of a key is its parts, joined. */
  lemma {:induction false} LocationIsParts(schema: Schema, model: string, prefix: string, path: seq<string>, key: string)
    requires model in schema && SchemaPath(schema, model, path)
    ensures LevelPrefix(schema, model, prefix, path) + key == prefix + Join(LevelParts(schema, model, path) + [key])
    decreases |path|
  {
    if path == [] {
      assert [] + [key] == [key];
    } else {
      var (steps, sub) := Below(schema, model, path[0]).value;
      var deeper := LevelParts(schema, sub, path[1..]) + [key];
      LocationIsParts(schema, sub, SubPrefix(prefix, path[0], steps), path[1..], key);
      hide Join, StarParts;
      PrefixJoin(prefix, path[0], |steps|, deeper);
      assert LevelParts(schema, model, path) + [key] == [path[0]] + (StarParts(|steps|) + deeper);
    }
  }

  /** Some mapping at a reached level has a key that its model lacks. */
  ghost predicate ForeignAt(schema: Schema, model: string, ms: seq<Mapping>, path: seq<string>, key: string)
    requires model in schema
  {
    && SchemaPath(schema, model, path) && Reached(schema, model, ms, path)
    && !IsField(schema[ModelAt(schema, model, path)], key)
    && IsCarried(Instances(schema, model, ms, path), key)
  }

  /** Some unknown key of the document stands at these parts. */
  ghost predicate Covered(schema: Schema, model: string, profile: Mapping, parts: seq<string>)
    requires model in schema
  {
    exists path, key :: ForeignAt(schema, model, [profile], path, key) && LevelParts(schema, model, path) + [key] == parts
  }

  /** The same, but only as dotted text. */
  ghost predicate CoveredAsText(schema: Schema, model: string, profile: Mapping, at: string)
    requires model in schema
  {
    exists path, key :: ForeignAt(schema, model, [profile], path, key) && Join(LevelParts(schema, model, path) + [key]) == at
  }

  lemma KnownExactly(schema: Schema, model: string, profile: Mapping, at: string)
    requires Closed(schema) && model in schema
    ensures at in UnknownLocations(Walk(schema, model, [profile], "").0) <==> CoveredAsText(schema, model, profile, at)
  {
    var ms := [profile];
    var f := Finding(at, KeyNotInModel);
    WalkExact(schema, model, ms, "", f);
    KnownIsFinding(Walk(schema, model, ms, "").0, at);
    hide Walk, UnknownLocations, Join, Closed, LevelParts, LevelPrefix;
    if Justified(schema, model, ms, "", f) {
      var path, key :| Justifies(schema, model, ms, "", f, path, key);
      LocationIsParts(schema, model, "", path, key);
      assert ForeignAt(schema, model, ms, path, key);
    }
    if CoveredAsText(schema, model, profile, at) {
      var path, key :| ForeignAt(schema, model, ms, path, key) && Join(LevelParts(schema, model, path) + [key]) == at;
      LocationIsParts(schema, model, "", path, key);
      assert Justifies(schema, model, ms, "", f, path, key);
    }
  }

  lemma KnownIsFinding(findings: seq<Finding>, at: string)
    ensures at in UnknownLocations(findings) <==> Finding(at, KeyNotInModel) in findings
  {
  }

  // keys without dots

  predicate PlainKeys(d: Doc) {
    match d
    case Scalar => true
    case Sequence(items) => forall i | 0 <= i < |items| :: PlainKeys(items[i])
    case Dict(entries) => forall i | 0 <= i < |entries| :: '.' !in entries[i].key && PlainKeys(entries[i].value)
  }

  ghost predicate PlainFields(schema: Schema) {
    forall m | m in schema :: forall i | 0 <= i < |schema[m]| :: '.' !in schema[m][i].name
  }

  predicate PlainLocation(loc: seq<Segment>) {
    forall i | 0 <= i < |loc| && loc[i].Key? :: '.' !in loc[i].name
  }

  lemma {:induction false} DecimalHasNoDot(n: nat)
    ensures '.' !in Decimal(n)
  {
    if n >= 10 { DecimalHasNoDot(n / 10); }
  }

  lemma {:induction false} StarsHaveNoDot(n: nat)
    ensures DotFree(StarParts(n))
  {
    if n > 0 { StarsHaveNoDot(n - 1); }
  }

  lemma DotFreeConcat(a: seq<string>, b: seq<string>)
    requires DotFree(a) && DotFree(b)
    ensures DotFree(a + b)
  {
  }

  lemma {:induction false} PartsHaveNoDot(schema: Schema, current: Option<string>, loc: seq<Segment>)
    requires Closed(schema) && (current.Some? ==> current.value in schema) && PlainLocation(loc)
    ensures DotFree(Parts(schema, current, loc)) && (loc != [] ==> Parts(schema, current, loc) != [])
    decreases |loc|
  {
    if loc != [] {
      var (here, next, n) := Consume(schema, current, loc);
      assert DotFree(here) by {
        if loc[0].Index? { DecimalHasNoDot(loc[0].i); }
        if n > 1 { StarsHaveNoDot(n - 1); }
        assert DotFree([Text(loc[0])]);
        if here != [Text(loc[0])] { DotFreeConcat([Text(loc[0])], here[1..]); }
      }
      assert here != [];
      hide Consume, DotFree, Closed;
      PartsHaveNoDot(schema, next, loc[n..]);
      DotFreeConcat(here, Parts(schema, next, loc[n..]));
    }
  }

  lemma {:induction false} LevelHasNoDot(schema: Schema, model: string, path: seq<string>)
    requires model in schema && SchemaPath(schema, model, path) && PlainFields(schema)
    ensures DotFree(LevelParts(schema, model, path))
    decreases |path|
  {
    if path != [] {
      var (steps, sub) := Below(schema, model, path[0]).value;
      LevelHasNoDot(schema, sub, path[1..]);
      StarsHaveNoDot(|steps|);
      var i :| 0 <= i < |schema[model]| && schema[model][i].name == path[0];
      DotFreeConcat(StarParts(|steps|), LevelParts(schema, sub, path[1..]));
      DotFreeConcat([path[0]], StarParts(|steps|) + LevelParts(schema, sub, path[1..]));
    }
  }

  ghost predicate AllPlain(docs: seq<Doc>) {
    forall d | d in docs :: PlainKeys(d)
  }

  ghost predicate PlainMappings(ms: seq<Mapping>) {
    forall m | m in ms :: PlainKeys(Dict(m))
  }

  lemma {:induction false} DescendKeepsPlain(level: seq<Doc>, steps: seq<Container>)
    requires AllPlain(level)
    ensures AllPlain(Descend(level, steps))
    decreases |steps|
  {
    if steps != [] {
      forall v | v in OpenAll(level, steps[0]) ensures PlainKeys(v) {
        OpenAllHolds(level, steps[0], v);
        var d :| d in level && v in Open(d, steps[0]);
        if d.Dict? { ValuesHolds(d.entries, v); }
      }
      DescendKeepsPlain(OpenAll(level, steps[0]), steps[1..]);
    }
  }

  lemma InnerKeepsPlain(ms: seq<Mapping>, name: string, steps: seq<Container>)
    requires PlainMappings(ms)
    ensures PlainMappings(Inner(ms, name, steps))
  {
    var carried := Carried(ms, name);
    forall v | v in carried ensures PlainKeys(v) {
      CarriedHolds(ms, name, v);
      var i :| 0 <= i < |ms| && HasKey(ms[i], name) && ValueAt(ms[i], name) == v;
      assert ms[i] in ms && PlainKeys(Dict(ms[i]));
      var j :| 0 <= j < |ms[i]| && ms[i][j] == Entry(name, v);
    }
    DescendKeepsPlain(carried, steps);
    forall m | m in Inner(ms, name, steps) ensures PlainKeys(Dict(m)) { DictsHolds(Descend(carried, steps), m); }
  }

  lemma {:induction false} CarriedKeyIsPlain(schema: Schema, model: string, ms: seq<Mapping>, path: seq<string>, key: string)
    requires model in schema && SchemaPath(schema, model, path) && PlainMappings(ms)
    requires IsCarried(Instances(schema, model, ms, path), key)
    ensures '.' !in key
    decreases |path|
  {
    if path == [] {
      var i :| 0 <= i < |ms| && HasKey(ms[i], key);
      assert ms[i] in ms && PlainKeys(Dict(ms[i]));
      var j :| 0 <= j < |ms[i]| && ms[i][j].key == key;
    } else {
      var (steps, sub) := Below(schema, model, path[0]).value;
      InnerKeepsPlain(ms, path[0], steps);
      CarriedKeyIsPlain(schema, sub, Inner(ms, path[0], steps), path[1..], key);
    }
  }

  /**
   Which validation errors `check_profile` drops: the unknown-key errors whose rendered location
   is, as text, that of an unknown key the walk reached. When neither the document's keys nor the
   field names hold a dot that is the same place, part by part, so only that key is skipped.
   */
  lemma DroppedExactly(schema: Schema, model: string, profile: Mapping, e: ValidationError)
    requires Closed(schema) && model in schema && e.loc != []
    ensures var known, parts := UnknownLocations(Walk(schema, model, [profile], "").0), Parts(schema, Some(model), e.loc);
            && (Extra(schema, model, known, e) == []
                <==> e.kind == ExtraForbidden && CoveredAsText(schema, model, profile, Join(parts)))
            && (PlainFields(schema) && PlainKeys(Dict(profile)) && PlainLocation(e.loc) ==>
                  (Extra(schema, model, known, e) == []
                   <==> e.kind == ExtraForbidden && Covered(schema, model, profile, parts)))
  {
    var parts := Parts(schema, Some(model), e.loc);
    KnownExactly(schema, model, profile, Join(parts));
    if PlainFields(schema) && PlainKeys(Dict(profile)) && PlainLocation(e.loc) {
      PlainCover(schema, model, profile, e.loc);
    }
  }

  lemma PlainCover(schema: Schema, model: string, profile: Mapping, loc: seq<Segment>)
    requires Closed(schema) && model in schema && loc != []
    requires PlainFields(schema) && PlainKeys(Dict(profile)) && PlainLocation(loc)
    ensures var parts := Parts(schema, Some(model), loc);
            CoveredAsText(schema, model, profile, Join(parts)) <==> Covered(schema, model, profile, parts)
  {
    var parts := Parts(schema, Some(model), loc);
    PartsHaveNoDot(schema, Some(model), loc);
    assert PlainMappings([profile]);
    hide Parts, Join, DotFree, LevelParts, PlainFields, PlainKeys, PlainMappings, Closed;
    if CoveredAsText(schema, model, profile, Join(parts)) {
      var path, key :| ForeignAt(schema, model, [profile], path, key) && Join(LevelParts(schema, model, path) + [key]) == Join(parts);
      CarriedKeyIsPlain(schema, model, [profile], path, key);
      LevelHasNoDot(schema, model, path);
      KeyHasNoDot(key);
      DotFreeConcat(LevelParts(schema, model, path), [key]);
      LocationsDistinct(LevelParts(schema, model, path) + [key], parts);
    }
  }

  lemma KeyHasNoDot(key: string)
    requires '.' !in key
    ensures DotFree([key])
  {
  }

  /**
   With a dot in a key an error is dropped for a place the walk did not report: the document has
   an unknown key `x.k` at the top and an unknown key `k` in the value of `x`. `Plain` is any annotation
   that holds no model of its own; here it stands for a typed dictionary that forbids extra keys, which
   validation looks into and the walk does not.
   */
  lemma DottedKeyHidesError()
    ensures var schema: Schema := map["M" := [Field("x", Plain)]];
            var profile := [Entry("x", Dict([Entry("k", Scalar)])), Entry("x.k", Scalar)];
            var e := ValidationError(ExtraForbidden, [Key("x"), Key("k")]);
            && Closed(schema)
            && Extra(schema, "M", UnknownLocations(Walk(schema, "M", [profile], "").0), e) == []
            && !Covered(schema, "M", profile, Parts(schema, Some("M"), e.loc))
  {
    var schema: Schema := map["M" := [Field("x", Plain)]];
    var profile := [Entry("x", Dict([Entry("k", Scalar)])), Entry("x.k", Scalar)];
    var e := ValidationError(ExtraForbidden, [Key("x"), Key("k")]);
    HiddenParts(schema, e.loc);
    HiddenText();
    HiddenKey(schema, profile);
    hide Closed, Parts, Join, CoveredAsText, Covered, PlainFields, PlainKeys, PlainLocation;
    NotAtXK(schema, profile);
    DroppedExactly(schema, "M", profile, e);
  }

  lemma HiddenKey(schema: Schema, profile: Mapping)
    requires schema == map["M" := [Field("x", Plain)]] && profile == [Entry("x", Dict([Entry("k", Scalar)])), Entry("x.k", Scalar)]
    ensures CoveredAsText(schema, "M", profile, Join(["x.k"]))
  {
    assert HasKey(profile, "x.k") by { assert profile[1].key == "x.k"; }
    assert IsCarried([profile], "x.k") by { assert HasKey([profile][0], "x.k"); }
    assert "x.k"[1] == '.' && schema["M"][0].name == "x";
    assert ForeignAt(schema, "M", [profile], [], "x.k");
    hide Join;
    assert LevelParts(schema, "M", []) + ["x.k"] == ["x.k"];
  }

  /** The schema has no level below the top, so nothing stands at two parts. */
  lemma NotAtXK(schema: Schema, profile: Mapping)
    requires schema == map["M" := [Field("x", Plain)]]
    ensures !Covered(schema, "M", profile, ["x", "k"])
  {
    forall path, key | ForeignAt(schema, "M", [profile], path, key)
      ensures LevelParts(schema, "M", path) + [key] != ["x", "k"]
    {
      assert path == [];
      assert |LevelParts(schema, "M", path) + [key]| == 1;
    }
  }

  lemma HiddenText()
    ensures Join(["x.k"]) == Join(["x", "k"])
  {
    assert ["x", "k"][1..] == ["k"];
    assert "x" + "." + "k" == "x.k";
  }

  /** No location under a schema of one plain field is starred. */
  lemma HiddenParts(schema: Schema, loc: seq<Segment>)
    requires schema == map["M" := [Field("x", Plain)]] && loc == [Key("x"), Key("k")]
    ensures Closed(schema) && Parts(schema, Some("M"), loc) == ["x", "k"]
  {
    assert schema["M"][0] == Field("x", Plain) && IsField(schema["M"], "x");
    assert loc[1..] == [Key("k")] && loc[1..][1..] == [];
    assert Consume(schema, Some("M"), loc) == (["x"], None, 1);
    assert Consume(schema, None, loc[1..]) == (["k"], None, 1);
    assert Parts(schema, None, loc[1..]) == ["k"] + Parts(schema, None, []);
  }
}
