/**
 The documented population of config models: everything reachable from the entry configs by
 following annotated field types, found with a worklist and a stack per annotation.
 */
module TypeClosure {
  import opened Wrappers

  /** An annotation node: a model class, an unresolved forward reference, or anything else; with its type arguments. */
  datatype Node =
    | ModelNode(name: string, args: seq<Node>)
    | ForwardRef(text: string)
    | OtherNode(args: seq<Node>)

  function Args(n: Node): seq<Node> {
    match n
    case ForwardRef(_) => []
    case ModelNode(_, args) => args
    case OtherNode(args) => args
  }

  /** The annotations of each model's fields, after `model_rebuild()`. */
  type Graph = map<string, seq<Node>>

  /** `m` is the node itself or occurs below it. */
  predicate Occurs(m: Node, n: Node)
    decreases n
  {
    m == n || exists i | 0 <= i < |Args(n)| :: Occurs(m, Args(n)[i])
  }

  /** Shape by shape: a forward reference holds nothing but itself, every other annotation what any of its arguments hold. */
  lemma OccursExactly(m: Node, name: string, args: seq<Node>)
    ensures Occurs(m, ForwardRef(name)) <==> m == ForwardRef(name)
    ensures Occurs(m, ModelNode(name, args)) <==> m == ModelNode(name, args) || exists i | 0 <= i < |args| :: Occurs(m, args[i])
    ensures Occurs(m, OtherNode(args)) <==> m == OtherNode(args) || exists i | 0 <= i < |args| :: Occurs(m, args[i])
  {
    var model, other := ModelNode(name, args), OtherNode(args);
    assert Args(model) == args && Args(other) == args;
    if i :| 0 <= i < |args| && Occurs(m, args[i]) {
      assert Occurs(m, Args(model)[i]) && Occurs(m, Args(other)[i]);
    }
    if Occurs(m, model) && m != model {
      var i :| 0 <= i < |Args(model)| && Occurs(m, Args(model)[i]);
      assert Occurs(m, args[i]);
    }
    if Occurs(m, other) && m != other {
      var i :| 0 <= i < |Args(other)| && Occurs(m, Args(other)[i]);
      assert Occurs(m, args[i]);
    }
  }

  predicate OccursAny(m: Node, nodes: seq<Node>) {
    exists i | 0 <= i < |nodes| :: Occurs(m, nodes[i])
  }

  /** Some field annotation of the model still carries a forward reference. */
  ghost predicate Unresolved(g: Graph, model: string)
    requires model in g
  {
    exists m: Node :: m.ForwardRef? && OccursAny(m, g[model])
  }

  /** A field annotation of `a` mentions the model `b`. */
  ghost predicate Edge(g: Graph, a: string, b: string) {
    a in g && exists m: Node :: m.ModelNode? && m.name == b && OccursAny(m, g[a])
  }

  /** Every mentioned model is one of the graph's. */
  ghost predicate Closed(g: Graph) {
    forall a, b | Edge(g, a, b) :: b in g
  }

  ghost predicate Path(g: Graph, p: seq<string>) {
    p != [] && forall i, j | 0 <= i && j == i + 1 && j < |p| :: Edge(g, p[i], p[j])
  }

  /** The model lies on a path of field annotations from an entry config. */
  ghost predicate Reachable(g: Graph, entries: seq<string>, m: string) {
    exists p :: Path(g, p) && p[0] in entries && p[|p| - 1] == m
  }

  // ----- the size of annotations, for the inner stack

  function Size(n: Node): nat {
    match n
    case ForwardRef(_) => 1
    case ModelNode(_, args) => 1 + SizeAll(args)
    case OtherNode(args) => 1 + SizeAll(args)
  }

  function SizeAll(nodes: seq<Node>): nat {
    if nodes == [] then 0 else SizeAll(nodes[..|nodes| - 1]) + Size(nodes[|nodes| - 1])
  }

  lemma {:induction false} SizeAppend(a: seq<Node>, b: seq<Node>)
    ensures SizeAll(a + b) == SizeAll(a) + SizeAll(b)
    decreases |b|
  {
    if b == [] {
      assert a + b == a;
    } else {
      var n := |b| - 1;
      assert (a + b)[..|a + b| - 1] == a + b[..n];
      SizeAppend(a, b[..n]);
    }
  }

  lemma OccursSplit(m: Node, nodes: seq<Node>)
    requires nodes != []
    ensures var k := |nodes| - 1;
            OccursAny(m, nodes)
            <==> m == nodes[k] || OccursAny(m, nodes[..k] + Args(nodes[k]))
  {
    var k := |nodes| - 1;
    var node, rest := nodes[k], nodes[..k] + Args(nodes[k]);
    if OccursAny(m, nodes) && m != node {
      var i :| 0 <= i < |nodes| && Occurs(m, nodes[i]);
      if i < k {
        assert rest[i] == nodes[i];
      } else {
        var j :| 0 <= j < |Args(node)| && Occurs(m, Args(node)[j]);
        assert rest[k + j] == Args(node)[j];
      }
    }
    if OccursAny(m, rest) {
      var i :| 0 <= i < |rest| && Occurs(m, rest[i]);
      if i < k {
        assert nodes[i] == rest[i];
      } else {
        assert Occurs(m, Args(node)[i - k]);
      }
    }
  }

  // ----- the walk

  /** One field annotation: pop nodes, refuse a forward reference, note the models not yet seen, push the arguments. */
  method ScanAnnotation(annotation: Node, seen0: set<string>, frontier0: seq<string>)
    returns (ok: bool, seen: set<string>, frontier: seq<string>)
    ensures ok <==> forall m: Node | Occurs(m, annotation) :: !m.ForwardRef?
    ensures ok ==> forall b :: b in seen <==> b in seen0 || exists m: Node :: m.ModelNode? && m.name == b && Occurs(m, annotation)
    ensures ok ==> exists added :: frontier == frontier0 + added && (forall b :: b in added <==> b in seen && b !in seen0)
    ensures seen0 <= seen
  {
    hide Occurs, OccursAny;
    seen, frontier := seen0, frontier0;
    var stack := [annotation];
    forall m: Node ensures OccursAny(m, stack) <==> Occurs(m, annotation) { OccursOne(m, annotation); }
    ghost var added: seq<string> := [];
    while stack != []
      invariant seen0 <= seen && frontier == frontier0 + added
      invariant forall b :: b in added <==> b in seen && b !in seen0
      invariant forall m: Node | Occurs(m, annotation) ::
                  OccursAny(m, stack) || (!m.ForwardRef? && (m.ModelNode? ==> m.name in seen))
      invariant forall m: Node | OccursAny(m, stack) :: Occurs(m, annotation)
      invariant forall b | b in seen && b !in seen0 :: exists m: Node :: m.ModelNode? && m.name == b && Occurs(m, annotation)
      decreases SizeAll(stack)
    {
      var k := |stack| - 1;
      var node := stack[k];
      ghost var before := stack;
      forall m: Node ensures OccursAny(m, before) <==> m == node || OccursAny(m, before[..k] + Args(node)) {
        OccursSplit(m, before);
      }
      SizeAppend(before[..k], Args(node));
      assert Size(node) == 1 + SizeAll(Args(node));
      stack := stack[..k];
      if node.ForwardRef? {
        ok := false;
        return;
      }
      if node.ModelNode? && node.name !in seen {
        seen := seen + {node.name};
        frontier := frontier + [node.name];
        added := added + [node.name];
      }
      stack := stack + Args(node);
    }
    forall m: Node ensures !OccursAny(m, stack) { OccursNone(m); }
    ok := true;
  }

  lemma OccursOne(m: Node, n: Node)
    ensures OccursAny(m, [n]) <==> Occurs(m, n)
  {
    assert [n][0] == n;
  }

  lemma OccursNone(m: Node)
    ensures !OccursAny(m, [])
  {
  }

  /** Every config model reachable from the entry configs, or a refusal when a reachable one is not fully resolved. */
  method ClosureModels(g: Graph, entries: seq<string>) returns (r: Option<set<string>>)
    requires Closed(g) && forall e | e in entries :: e in g
    ensures r.Some? ==> forall m :: m in r.value <==> Reachable(g, entries, m)
    ensures r.None? <==> exists m :: Reachable(g, entries, m) && m in g && Unresolved(g, m)
  {
    hide Reachable, Edge, Unresolved;
    var seen: set<string> := {};
    var frontier: seq<string> := [];
    for i := 0 to |entries|
      invariant forall m :: m in seen <==> m in entries[..i]
      invariant forall m :: m in frontier <==> m in seen
    {
      assert entries[..i + 1] == entries[..i] + [entries[i]];
      if entries[i] !in seen {
        seen := seen + {entries[i]};
        frontier := frontier + [entries[i]];
      }
    }
    assert entries[..|entries|] == entries;
    forall m | m in entries ensures Reachable(g, entries, m) { EntryReachable(g, entries, m); }
    ghost var done: set<string> := {};
    while frontier != []
      invariant forall m | m in frontier :: m in seen
      invariant forall m | m in seen :: m in g && Reachable(g, entries, m)
      invariant forall e | e in entries :: e in seen
      invariant done <= seen && forall m | m in seen && m !in done :: m in frontier
      invariant forall a | a in done :: a in g && !Unresolved(g, a) && forall b | Edge(g, a, b) :: b in seen
      decreases g.Keys - seen, g.Keys - done, |frontier|
    {
      var k := |frontier| - 1;
      var model := frontier[k];
      ghost var pending, known := frontier, seen;
      assert model in frontier;
      frontier := frontier[..k];
      assert forall m :: m in pending <==> m in frontier || m == model;
      var ok;
      ok, seen, frontier := ScanFields(g, model, seen, frontier);
      if !ok {
        return None;
      }
      forall b | b in seen && b !in known ensures b in g && Reachable(g, entries, b) {
        EdgeReachable(g, entries, model, b);
      }
      done := done + {model};
    }
    forall m | Reachable(g, entries, m) ensures m in seen {
      ReachableIsSeen(g, entries, seen, m);
    }
    return Some(seen);
  }

  /** The fields of one model, in order. */
  method ScanFields(g: Graph, model: string, seen0: set<string>, frontier0: seq<string>)
    returns (ok: bool, seen: set<string>, frontier: seq<string>)
    requires model in g
    ensures ok <==> !Unresolved(g, model)
    ensures ok ==> forall b :: b in seen <==> b in seen0 || Edge(g, model, b)
    ensures ok ==> forall b :: b in frontier <==> b in frontier0 || (b in seen && b !in seen0)
    ensures ok && seen == seen0 ==> frontier == frontier0
  {
    seen, frontier := seen0, frontier0;
    var fields := g[model];
    for i := 0 to |fields|
      invariant forall m: Node | OccursAny(m, fields[..i]) :: !m.ForwardRef?
      invariant forall b :: b in seen <==> b in seen0 || exists m: Node :: m.ModelNode? && m.name == b && OccursAny(m, fields[..i])
      invariant forall b :: b in frontier <==> b in frontier0 || (b in seen && b !in seen0)
      invariant seen == seen0 ==> frontier == frontier0
    {
      forall m: Node ensures OccursAny(m, fields[..i + 1]) <==> OccursAny(m, fields[..i]) || Occurs(m, fields[i]) {
        OccursSnoc(m, fields, i);
      }
      ghost var seen1, frontier1 := seen, frontier;
      ok, seen, frontier := ScanAnnotation(fields[i], seen, frontier);
      if !ok {
        var m: Node :| Occurs(m, fields[i]) && m.ForwardRef?;
        assert OccursAny(m, fields);
        return;
      }
      ghost var added :| frontier == frontier1 + added && (forall b :: b in added <==> b in seen && b !in seen1);
      assert added == [] || added[0] in added;
    }
    assert fields[..|fields|] == fields;
    ok := true;
  }

  lemma OccursSnoc(m: Node, fields: seq<Node>, i: nat)
    requires i < |fields|
    ensures OccursAny(m, fields[..i + 1]) <==> OccursAny(m, fields[..i]) || Occurs(m, fields[i])
  {
    if k :| 0 <= k < i && Occurs(m, fields[..i][k]) { assert fields[..i + 1][k] == fields[..i][k]; }
    if Occurs(m, fields[i]) { assert fields[..i + 1][i] == fields[i]; }
    var upTo := fields[..i + 1];
    if k :| 0 <= k < |upTo| && Occurs(m, upTo[k]) {
      if k < i { assert fields[..i][k] == upTo[k]; }
    }
  }

  // ----- edges, read off the annotations

  /** The way from an annotation to something in it, by the positions of the arguments. */
  ghost predicate Inside(m: Node, n: Node, way: seq<nat>)
    decreases |way|
  {
    if way == [] then m == n
    else
      match n
      case ForwardRef(_) => false
      case ModelNode(_, args) => way[0] < |args| && Inside(m, args[way[0]], way[1..])
      case OtherNode(args) => way[0] < |args| && Inside(m, args[way[0]], way[1..])
  }

  lemma {:induction false} InsideOccurs(m: Node, n: Node, way: seq<nat>)
    requires Inside(m, n, way)
    ensures Occurs(m, n)
    decreases |way|
  {
    if way != [] {
      InsideOccurs(m, n.args[way[0]], way[1..]);
      OccursExactly(m, if n.ModelNode? then n.name else "", n.args);
    }
  }

  lemma {:induction false} OccursInside(m: Node, n: Node) returns (way: seq<nat>)
    requires Occurs(m, n)
    ensures Inside(m, n, way)
    decreases n
  {
    if m == n {
      way := [];
    } else {
      assert Args(n) != [];
      OccursExactly(m, if n.ModelNode? then n.name else "", n.args);
      var i :| 0 <= i < |n.args| && Occurs(m, n.args[i]);
      var rest := OccursInside(m, n.args[i]);
      way := [i] + rest;
      assert way[1..] == rest;
    }
  }

  ghost predicate Somewhere(m: Node, n: Node) {
    exists way :: Inside(m, n, way)
  }

  lemma SomewhereExactly(m: Node, nodes: seq<Node>)
    ensures OccursAny(m, nodes) <==> exists i | 0 <= i < |nodes| :: Somewhere(m, nodes[i])
  {
    if i :| 0 <= i < |nodes| && Occurs(m, nodes[i]) { var way := OccursInside(m, nodes[i]); }
    if i :| 0 <= i < |nodes| && Somewhere(m, nodes[i]) {
      var way :| Inside(m, nodes[i], way);
      InsideOccurs(m, nodes[i], way);
    }
  }

  /** An edge is a field annotation with the model somewhere in it, behind `Optional`, a union, a list or a dictionary alike. */
  lemma EdgeExactly(g: Graph, a: string, b: string)
    ensures Edge(g, a, b) <==> a in g && exists i, args :: 0 <= i < |g[a]| && Somewhere(ModelNode(b, args), g[a][i])
  {
    hide Somewhere, OccursAny;
    if Edge(g, a, b) {
      var m: Node :| m.ModelNode? && m.name == b && OccursAny(m, g[a]);
      SomewhereExactly(m, g[a]);
      assert m == ModelNode(b, m.args);
    }
    if a in g {
      if i, args :| 0 <= i < |g[a]| && Somewhere(ModelNode(b, args), g[a][i]) {
        SomewhereExactly(ModelNode(b, args), g[a]);
      }
    }
  }

  /** A model is unresolved when a forward reference is left anywhere in one of its annotations. */
  lemma UnresolvedExactly(g: Graph, a: string)
    requires a in g
    ensures Unresolved(g, a) <==> exists i, text :: 0 <= i < |g[a]| && Somewhere(ForwardRef(text), g[a][i])
  {
    hide Somewhere, OccursAny;
    if Unresolved(g, a) {
      var m: Node :| m.ForwardRef? && OccursAny(m, g[a]);
      SomewhereExactly(m, g[a]);
      assert m == ForwardRef(m.text);
    }
    if i, text :| 0 <= i < |g[a]| && Somewhere(ForwardRef(text), g[a][i]) {
      SomewhereExactly(ForwardRef(text), g[a]);
    }
  }

  lemma EntryReachable(g: Graph, entries: seq<string>, m: string)
    requires m in entries
    ensures Reachable(g, entries, m)
  {
    assert Path(g, [m]);
  }

  lemma EdgeReachable(g: Graph, entries: seq<string>, a: string, b: string)
    requires Closed(g) && Reachable(g, entries, a) && Edge(g, a, b)
    ensures b in g && Reachable(g, entries, b)
  {
    var p :| Path(g, p) && p[0] in entries && p[|p| - 1] == a;
    assert Path(g, p + [b]);
  }

  lemma {:induction false} ReachableIsSeen(g: Graph, entries: seq<string>, seen: set<string>, m: string)
    requires forall e | e in entries :: e in seen
    requires forall a, b | a in seen && Edge(g, a, b) :: b in seen
    requires Reachable(g, entries, m)
    ensures m in seen
  {
    var p :| Path(g, p) && p[0] in entries && p[|p| - 1] == m;
    PathIsSeen(g, seen, p);
  }

  lemma {:induction false} PathIsSeen(g: Graph, seen: set<string>, p: seq<string>)
    requires forall a, b | a in seen && Edge(g, a, b) :: b in seen
    requires Path(g, p) && p[0] in seen
    ensures p[|p| - 1] in seen
    decreases |p|
  {
    if |p| > 1 {
      var front := p[..|p| - 1];
      assert Path(g, front);
      PathIsSeen(g, seen, front);
      assert Edge(g, p[|p| - 2], p[|p| - 1]);
    }
  }
}
