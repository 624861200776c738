/**
 The disk-usage lint: a syntax-tree visitor that checks deletion calls statement by statement,
 and the self-lint of the exemption comments it used.
 */
module SiteVisitor {
  import opened Wrappers
  import opened Text

  /** Node kinds that own statement bodies. `Function` is both the plain and the async form. */
  datatype Kind =
    | Module | Function(name: string) | If | Try | For | While | With | AsyncWith
    | Class | Match | AsyncFor | TryStar

  /**
   A statement. A bare call carries its lines and the resolved name of what it calls (None when
   the callee is neither a name nor an attribute). A compound statement has its bodies in field
   order: those of a `try` are the body, each handler's, the `else` and the `finally`.
   */
  datatype Stmt =
    | Call(line: int, end: int, name: Option<string>)
    | Plain
    | Compound(kind: Kind, bodies: seq<Body>)

  datatype Body = Body(stmts: seq<Stmt>)

  datatype Rule = NotRouted | RawRmtree | Unclassified | MissingCategory | UnknownCategory | Orphan

  datatype Violation = Violation(path: string, line: int, rule: Rule)

  const DELIBERATELY_UNHANDLED: set<string> := {
    "os.replace", "os.rename", "shutil.move", "shutil.copy", "shutil.copy2", "shutil.copyfile", "shutil.copytree",
    "os.truncate", "os.removedirs", "os.rmdir", "os.remove", "os.unlink"
  }

  /** Exempt comments: line number to category, None for a comment without one. */
  type Exempt = map<int, Option<string>>

  /** The last component of a repository path: what follows the last slash. */
  function Basename(path: string): (name: string)
    ensures '/' !in name && EndsWith(path, name)
  {
    if path == "" then ""
    else if path[|path| - 1] == '/' then ""
    else
      var front := path[..|path| - 1];
      Basename(front) + [path[|path| - 1]]
  }

  /** A path ends in a file name when it is that name or has it behind a slash. */
  ghost predicate Names(path: string, name: string) {
    path == name || exists dir :: path == dir + "/" + name
  }

  lemma {:induction false} BasenameExactly(path: string, name: string)
    requires '/' !in name
    ensures Basename(path) == name <==> Names(path, name)
    decreases |path|
  {
    var last := Basename(path);
    if path != "" && path[|path| - 1] != '/' {
      var front := path[..|path| - 1];
      var c := path[|path| - 1];
      assert path == front + [c];
      BasenameExactly(front, Basename(front));
      if Basename(front) != front {
        var dir :| front == dir + "/" + Basename(front);
        assert path == dir + "/" + last;
      }
      assert Names(path, last);
    } else if path != "" {
      assert path == path[..|path| - 1] + "/" + "";
      assert Names(path, "");
    }
    assert Names(path, last);
    if Names(path, name) { OneName(path, name, last); }
  }

  lemma OneName(path: string, a: string, b: string)
    requires Names(path, a) && Names(path, b) && '/' !in a && '/' !in b
    ensures a == b
  {
    BehindSlash(path, a);
    BehindSlash(path, b);
    if |a| < |b| {
      var dir :| path == dir + "/" + a;
      ShorterName(path, dir, a, b);
    } else if |b| < |a| {
      var dir :| path == dir + "/" + b;
      ShorterName(path, dir, b, a);
    }
  }

  lemma ShorterName(path: string, dir: string, a: string, b: string)
    requires path == dir + "/" + a && |a| < |b| <= |path| && path[|path| - |b|..] == b
    ensures '/' in b
  {
    var n := |path| - |b|;
    assert b[|dir| - n] == path[n..][|dir| - n] == path[|dir|];
  }

  lemma BehindSlash(path: string, b: string)
    requires Names(path, b)
    ensures |b| <= |path| && path[|path| - |b|..] == b
  {
    if path != b {
      var dir :| path == dir + "/" + b;
      assert path[|dir| + 1..] == b;
    }
  }

  /** Is the node a body of the sanctioned implementation, which is never entered? */
  predicate Skipped(path: string, kind: Kind) {
    && kind.Function?
    && ((Basename(path) == "utils.py" && kind.name == "fast_rmtree")
        || (Basename(path) == "du_sentinels.py" && kind.name == "delete_and_account"))
  }

  /** The kinds with a visitor method of their own; the others are only descended through. */
  predicate Scans(kind: Kind) {
    !kind.Class? && !kind.Match? && !kind.AsyncFor? && !kind.TryStar?
  }

  /** The two helpers that are never entered, each in its own file, wherever that lies. */
  lemma SkippedExactly(path: string, kind: Kind)
    ensures Skipped(path, kind) <==>
              || (kind == Function("fast_rmtree") && Names(path, "utils.py"))
              || (kind == Function("delete_and_account") && Names(path, "du_sentinels.py"))
  {
    NoSlashInNames();
    BasenameExactly(path, "utils.py");
    BasenameExactly(path, "du_sentinels.py");
    hide Basename, Names;
  }

  lemma NoSlashInNames()
    ensures '/' !in "utils.py" && '/' !in "du_sentinels.py"
  {
  }

  /** The rule a statement falls under when nothing exempts it. */
  function RuleFor(path: string, s: Stmt): Option<Rule> {
    if !s.Call? || s.name.None? then None
    else if s.name.value == "fast_rmtree" then (if EndsWith(path, "du_sentinels.py") then None else Some(NotRouted))
    else if s.name.value == "shutil.rmtree" then Some(RawRmtree)
    else if s.name.value in DELIBERATELY_UNHANDLED then Some(Unclassified)
    else if s.name.value == "unlink" then Some(NotRouted)
    else None
  }

  /** The declared vocabulary of file-system mutators. */
  const FS_MUTATORS: set<string> := {
    "fast_rmtree", "unlink", "shutil.rmtree", "shutil.copytree", "shutil.move", "os.remove", "os.unlink", "os.rmdir",
    "os.removedirs", "os.replace", "os.rename", "os.truncate", "shutil.copy", "shutil.copy2", "shutil.copyfile"
  }

  /** No declared mutator is passed over: a call has a rule exactly when its name is in the vocabulary, the tool's own primitive apart. */
  lemma VocabularyCovered(path: string, s: Stmt)
    requires s.Call? && s.name.Some?
    ensures RuleFor(path, s).Some?
       <==> s.name.value in FS_MUTATORS && !(s.name.value == "fast_rmtree" && EndsWith(path, "du_sentinels.py"))
    ensures RuleFor(path, s) == Some(Unclassified) <==> s.name.value in FS_MUTATORS - {"fast_rmtree", "unlink", "shutil.rmtree"}
  {
    hide EndsWith;
    assert FS_MUTATORS == DELIBERATELY_UNHANDLED + {"fast_rmtree", "unlink", "shutil.rmtree"};
  }

  /** The exempt comments that reach a statement: the line above it and its own lines. */
  function ExemptLines(s: Stmt, exempt: Exempt): set<int>
    requires s.Call?
  {
    var last := if s.end == 0 then s.line else s.end;
    set l | l in exempt && (l == s.line - 1 || s.line <= l <= last)
  }

  /** Which rule each name falls under. */
  lemma RuleByName(path: string, line: int, end: int, name: string)
    ensures RuleFor(path, Call(line, end, Some(name))) == Some(RawRmtree) <==> name == "shutil.rmtree"
    ensures RuleFor(path, Call(line, end, Some(name))) == Some(NotRouted)
       <==> name == "unlink" || (name == "fast_rmtree" && !exists a :: path == a + "du_sentinels.py")
    ensures RuleFor(path, Call(line, end, Some(name))) == Some(Unclassified)
       <==> name in ["os.replace", "os.rename", "shutil.move", "shutil.copy", "shutil.copy2", "shutil.copyfile", "shutil.copytree",
                     "os.truncate", "os.removedirs", "os.rmdir", "os.remove", "os.unlink"]
    ensures RuleFor(path, Call(line, end, None)) == None
  {
    EndsWithExactly(path, "du_sentinels.py");
    hide EndsWith;
  }

  /** A statement is exempt by a comment on the line above it or on one of its own lines; one without an end has a single line. */
  lemma ExemptReach(s: Stmt, exempt: Exempt, l: int)
    requires s.Call? && (s.end == 0 || s.end >= s.line)
    ensures l in ExemptLines(s, exempt) <==> l in exempt && s.line - 1 <= l <= (if s.end == 0 then s.line else s.end)
  {
  }

  /** What checking one statement reports. */
  function Verdict(path: string, exempt: Exempt, s: Stmt): seq<Violation> {
    match RuleFor(path, s)
    case Some(rule) => if ExemptLines(s, exempt) == {} then [Violation(path, s.line, rule)] else []
    case None => []
  }

  /** Which exempt comments checking one statement uses. */
  function Uses(path: string, exempt: Exempt, s: Stmt): set<int> {
    if RuleFor(path, s).Some? then ExemptLines(s, exempt) else {}
  }

  // ----- the visitor's order: a node's bodies first, then each of their statements

  /** The way from a node to a statement below it: which body, and which statement of it. */
  datatype Step = Step(body: nat, index: nat)

  datatype Site = Site(way: seq<Step>, stmt: Stmt)

  function Lift(at: Step, sites: seq<Site>): seq<Site> {
    if sites == [] then []
    else [Site([at] + sites[0].way, sites[0].stmt)] + Lift(at, sites[1..])
  }

  /** The first `n` statements of body `b`. */
  function Scanned(body: Body, b: nat, n: nat): seq<Site>
    requires n <= |body.stmts|
  {
    if n == 0 then [] else Scanned(body, b, n - 1) + [Site([Step(b, n - 1)], body.stmts[n - 1])]
  }

  function ScannedBodies(bodies: seq<Body>, n: nat): seq<Site>
    requires n <= |bodies|
  {
    if n == 0 then [] else ScannedBodies(bodies, n - 1) + Scanned(bodies[n - 1], n - 1, |bodies[n - 1].stmts|)
  }

  /** Every check made by visiting a node, in order. */
  function Visits(path: string, s: Stmt): seq<Site>
    decreases s, 0
  {
    if !s.Compound? || Skipped(path, s.kind) then []
    else
      (if Scans(s.kind) then ScannedBodies(s.bodies, |s.bodies|) else []) + VisitBodies(path, s.bodies, |s.bodies|)
  }

  function VisitBodies(path: string, bodies: seq<Body>, n: nat): seq<Site>
    requires n <= |bodies|
    decreases bodies, n
  {
    if n == 0 then []
    else VisitBodies(path, bodies, n - 1) + VisitBody(path, bodies[n - 1], n - 1, |bodies[n - 1].stmts|)
  }

  function VisitBody(path: string, body: Body, b: nat, n: nat): seq<Site>
    requires n <= |body.stmts|
    decreases body, n
  {
    if n == 0 then [] else VisitBody(path, body, b, n - 1) + Lift(Step(b, n - 1), Visits(path, body.stmts[n - 1]))
  }

  // ----- the visitor

  /** What a visitor has collected. */
  datatype Log = Log(violations: seq<Violation>, used: set<int>)

  function CheckOne(path: string, exempt: Exempt, log: Log, s: Stmt): Log {
    Log(log.violations + Verdict(path, exempt, s), log.used + Uses(path, exempt, s))
  }

  /** The log after further checks, in order. */
  function Checked(path: string, exempt: Exempt, log: Log, sites: seq<Site>): Log {
    if sites == [] then log
    else
      var n := |sites| - 1;
      CheckOne(path, exempt, Checked(path, exempt, log, sites[..n]), sites[n].stmt)
  }

  lemma OneMoreCheck(path: string, exempt: Exempt, log: Log, sites: seq<Site>, x: Site)
    ensures Checked(path, exempt, log, sites + [x]) == CheckOne(path, exempt, Checked(path, exempt, log, sites), x.stmt)
  {
    hide CheckOne;
    assert (sites + [x])[..|sites|] == sites;
  }

  lemma {:induction false} ChecksAppend(path: string, exempt: Exempt, log: Log, a: seq<Site>, b: seq<Site>)
    ensures Checked(path, exempt, log, a + b) == Checked(path, exempt, Checked(path, exempt, log, a), b)
  {
    hide CheckOne;
    if b == [] {
      assert a + b == a;
    } else {
      var n := |b| - 1;
      assert (a + b)[..|a| + n] == a + b[..n];
      ChecksAppend(path, exempt, log, a, b[..n]);
    }
  }

  lemma {:induction false} LiftChecksTheSame(path: string, exempt: Exempt, log: Log, at: Step, sites: seq<Site>)
    ensures Checked(path, exempt, log, Lift(at, sites)) == Checked(path, exempt, log, sites)
    decreases |sites|
  {
    if sites != [] {
      var lifted := [Site([at] + sites[0].way, sites[0].stmt)];
      assert sites == [sites[0]] + sites[1..];
      OneMoreCheck(path, exempt, log, [], sites[0]);
      OneMoreCheck(path, exempt, log, [], lifted[0]);
      hide Checked;
      assert [] + lifted == lifted && [] + [sites[0]] == [sites[0]];
      ChecksAppend(path, exempt, log, [sites[0]], sites[1..]);
      ChecksAppend(path, exempt, log, lifted, Lift(at, sites[1..]));
      LiftChecksTheSame(path, exempt, Checked(path, exempt, log, lifted), at, sites[1..]);
    }
  }

  class Visitor {
    const path: string
    const exempt: Exempt
    var violations: seq<Violation>
    var used: set<int>

    constructor (path: string, exempt: Exempt)
      ensures this.path == path && this.exempt == exempt && violations == [] && used == {}
    {
      this.path, this.exempt, violations, used := path, exempt, [], {};
    }

    ghost function Now(): Log
      reads this
    {
      Log(violations, used)
    }

    method CheckStmt(s: Stmt)
      modifies this
      ensures Now() == CheckOne(path, exempt, old(Now()), s)
    {
      if !s.Call? || s.name.None? {
        return;
      }
      var name := s.name.value;
      var rule: Rule;
      if name == "fast_rmtree" {
        if EndsWith(path, "du_sentinels.py") {
          return;
        }
        rule := NotRouted;
      } else if name == "shutil.rmtree" {
        rule := RawRmtree;
      } else if name in DELIBERATELY_UNHANDLED {
        rule := Unclassified;
      } else if name == "unlink" {
        rule := NotRouted;
      } else {
        return;
      }
      var lines := ExemptLines(s, exempt);
      if lines != {} {
        used := used + lines;
      } else {
        violations := violations + [Violation(path, s.line, rule)];
      }
    }

    method ScanBody(body: Body, ghost b: nat)
      modifies this
      ensures Now() == Checked(path, exempt, old(Now()), Scanned(body, b, |body.stmts|))
    {
      for i := 0 to |body.stmts|
        invariant Now() == Checked(path, exempt, old(Now()), Scanned(body, b, i))
      {
        hide Checked, CheckOne;
        OneMoreCheck(path, exempt, old(Now()), Scanned(body, b, i), Site([Step(b, i)], body.stmts[i]));
        CheckStmt(body.stmts[i]);
      }
    }

    /** The methods of the scanning kinds: first every body, then the descent. */
    method Visit(s: Stmt)
      modifies this
      ensures Now() == Checked(path, exempt, old(Now()), Visits(path, s))
      decreases s, 0
    {
      hide Checked, Skipped;
      if !s.Compound? || Skipped(path, s.kind) {
        NothingChecked(path, exempt, Now());
        return;
      }
      ghost var scanned := [];
      NothingChecked(path, exempt, Now());
      if Scans(s.kind) {
        ScanBodies(s.bodies);
        scanned := ScannedBodies(s.bodies, |s.bodies|);
      }
      ChecksAppend(path, exempt, old(Now()), scanned, VisitBodies(path, s.bodies, |s.bodies|));
      GenericVisit(s.bodies);
    }

    method ScanBodies(bodies: seq<Body>)
      modifies this
      ensures Now() == Checked(path, exempt, old(Now()), ScannedBodies(bodies, |bodies|))
    {
      hide Checked;
      NothingChecked(path, exempt, Now());
      for i := 0 to |bodies|
        invariant Now() == Checked(path, exempt, old(Now()), ScannedBodies(bodies, i))
      {
        hide Checked, Scanned;
        ChecksAppend(path, exempt, old(Now()), ScannedBodies(bodies, i), Scanned(bodies[i], i, |bodies[i].stmts|));
        ScanBody(bodies[i], i);
      }
    }

    /** Visit the statements of every body, in order. */
    method GenericVisit(bodies: seq<Body>)
      modifies this
      ensures Now() == Checked(path, exempt, old(Now()), VisitBodies(path, bodies, |bodies|))
      decreases bodies, 0
    {
      hide Checked;
      NothingChecked(path, exempt, Now());
      for i := 0 to |bodies|
        invariant Now() == Checked(path, exempt, old(Now()), VisitBodies(path, bodies, i))
      {
        hide Checked, VisitBody;
        ChecksAppend(path, exempt, old(Now()), VisitBodies(path, bodies, i), VisitBody(path, bodies[i], i, |bodies[i].stmts|));
        VisitStatements(bodies[i], i);
      }
    }

    method VisitStatements(body: Body, ghost b: nat)
      modifies this
      ensures Now() == Checked(path, exempt, old(Now()), VisitBody(path, body, b, |body.stmts|))
      decreases body, 0
    {
      hide Checked;
      NothingChecked(path, exempt, Now());
      for j := 0 to |body.stmts|
        invariant Now() == Checked(path, exempt, old(Now()), VisitBody(path, body, b, j))
      {
        hide Checked, Visits, Lift;
        var below := Visits(path, body.stmts[j]);
        LiftChecksTheSame(path, exempt, Now(), Step(b, j), below);
        ChecksAppend(path, exempt, old(Now()), VisitBody(path, body, b, j), Lift(Step(b, j), below));
        Visit(body.stmts[j]);
      }
    }
  }

  lemma NothingChecked(path: string, exempt: Exempt, log: Log)
    ensures Checked(path, exempt, log, []) == log
  {
  }

  // ----- which statements are checked, read off the tree

  /** `way` leads from `s` to `c`, through no skipped helper, and the last node on it scans its bodies. */
  predicate CheckedAt(path: string, s: Stmt, way: seq<Step>, c: Stmt)
    decreases |way|
  {
    && way != []
    && s.Compound? && !Skipped(path, s.kind)
    && way[0].body < |s.bodies| && way[0].index < |s.bodies[way[0].body].stmts|
    && var child := s.bodies[way[0].body].stmts[way[0].index];
       if |way| == 1 then Scans(s.kind) && child == c else CheckedAt(path, child, way[1..], c)
  }

  ghost function Times<T>(items: seq<T>, x: T): nat {
    multiset(items)[x]
  }

  lemma TimesAppend<T>(a: seq<T>, b: seq<T>, x: T)
    ensures Times(a + b, x) == Times(a, x) + Times(b, x)
  {
  }

  lemma TimesOne<T>(y: T, x: T)
    ensures Times([y], x) == if x == y then 1 else 0
  {
  }

  lemma TimesNone<T>(x: T)
    ensures Times([], x) == 0
  {
  }

  lemma {:induction false} LiftCount(at: Step, sites: seq<Site>, x: Site)
    ensures Times(Lift(at, sites), x) == if x.way != [] && x.way[0] == at then Times(sites, Site(x.way[1..], x.stmt)) else 0
  {
    hide Times;
    if sites == [] {
      TimesNone(x);
      if x.way != [] { TimesNone(Site(x.way[1..], x.stmt)); }
    } else {
      LiftCount(at, sites[1..], x);
      var first := Site([at] + sites[0].way, sites[0].stmt);
      TimesAppend([first], Lift(at, sites[1..]), x);
      TimesOne(first, x);
      if x.way != [] {
        var under := Site(x.way[1..], x.stmt);
        assert sites == [sites[0]] + sites[1..];
        TimesAppend([sites[0]], sites[1..], under);
        TimesOne(sites[0], under);
        assert first.way[1..] == sites[0].way;
        if x.way[0] == at { assert x.way == [at] + x.way[1..]; }
      }
    }
  }

  /** Is `x` one of the first `n` statements of body `b`? */
  predicate InBody(body: Body, b: nat, n: nat, x: Site)
    requires n <= |body.stmts|
  {
    |x.way| == 1 && x.way[0].body == b && x.way[0].index < n && body.stmts[x.way[0].index] == x.stmt
  }

  lemma {:induction false} ScannedCount(body: Body, b: nat, n: nat, x: Site)
    requires n <= |body.stmts|
    ensures Times(Scanned(body, b, n), x) == if InBody(body, b, n, x) then 1 else 0
  {
    hide Times;
    if n == 0 {
      TimesNone(x);
    } else {
      ScannedCount(body, b, n - 1, x);
      var last := Site([Step(b, n - 1)], body.stmts[n - 1]);
      TimesAppend(Scanned(body, b, n - 1), [last], x);
      TimesOne(last, x);
      assert |x.way| == 1 ==> x.way == [x.way[0]];
    }
  }

  /** Is `x` one step below the first `n` bodies? */
  predicate DirectlyIn(bodies: seq<Body>, n: nat, x: Site)
    requires n <= |bodies|
  {
    && |x.way| == 1 && x.way[0].body < n && x.way[0].index < |bodies[x.way[0].body].stmts|
    && bodies[x.way[0].body].stmts[x.way[0].index] == x.stmt
  }

  lemma InLastBody(bodies: seq<Body>, n: nat, x: Site)
    requires 0 < n <= |bodies|
    ensures DirectlyIn(bodies, n, x) <==> DirectlyIn(bodies, n - 1, x) || InBody(bodies[n - 1], n - 1, |bodies[n - 1].stmts|, x)
    ensures !(DirectlyIn(bodies, n - 1, x) && InBody(bodies[n - 1], n - 1, |bodies[n - 1].stmts|, x))
  {
  }

  lemma NotInNone(bodies: seq<Body>, x: Site)
    ensures !DirectlyIn(bodies, 0, x)
  {
  }

  lemma {:induction false} ScannedBodiesCount(bodies: seq<Body>, n: nat, x: Site)
    requires n <= |bodies|
    ensures Times(ScannedBodies(bodies, n), x) == if DirectlyIn(bodies, n, x) then 1 else 0
  {
    hide Times, Scanned, InBody, DirectlyIn;
    if n == 0 {
      TimesNone(x);
      NotInNone(bodies, x);
    } else {
      InLastBody(bodies, n, x);
      ScannedBodiesCount(bodies, n - 1, x);
      ScannedCount(bodies[n - 1], n - 1, |bodies[n - 1].stmts|, x);
      TimesAppend(ScannedBodies(bodies, n - 1), Scanned(bodies[n - 1], n - 1, |bodies[n - 1].stmts|), x);
    }
  }

  lemma {:induction false} VisitBodyCount(path: string, body: Body, b: nat, n: nat, x: Site)
    requires n <= |body.stmts|
    ensures Times(VisitBody(path, body, b, n), x)
         == if x.way != [] && x.way[0].body == b && x.way[0].index < n
            then Times(Visits(path, body.stmts[x.way[0].index]), Site(x.way[1..], x.stmt)) else 0
  {
    hide Visits, Times, Lift;
    if n > 0 {
      VisitBodyCount(path, body, b, n - 1, x);
      var below := Visits(path, body.stmts[n - 1]);
      LiftCount(Step(b, n - 1), below, x);
      TimesAppend(VisitBody(path, body, b, n - 1), Lift(Step(b, n - 1), below), x);
    } else {
      TimesNone(x);
    }
  }

  lemma {:induction false} VisitBodiesCount(path: string, bodies: seq<Body>, n: nat, x: Site)
    requires n <= |bodies|
    ensures Times(VisitBodies(path, bodies, n), x)
         == if x.way != [] && x.way[0].body < n && x.way[0].index < |bodies[x.way[0].body].stmts|
            then Times(Visits(path, bodies[x.way[0].body].stmts[x.way[0].index]), Site(x.way[1..], x.stmt)) else 0
  {
    hide Visits, Times, VisitBody;
    if n > 0 {
      VisitBodiesCount(path, bodies, n - 1, x);
      VisitBodyCount(path, bodies[n - 1], n - 1, |bodies[n - 1].stmts|, x);
      TimesAppend(VisitBodies(path, bodies, n - 1), VisitBody(path, bodies[n - 1], n - 1, |bodies[n - 1].stmts|), x);
    } else {
      TimesNone(x);
    }
  }

  /**
   The visitor checks a statement once for every place it stands in whose owning node scans its
   bodies and lies in no skipped helper, and nowhere else: no place twice, although every body is
   walked first to scan it and again to descend.
   */
  lemma {:induction false} EachSiteOnce(path: string, s: Stmt, way: seq<Step>, c: Stmt)
    ensures Times(Visits(path, s), Site(way, c)) == if CheckedAt(path, s, way, c) then 1 else 0
    decreases |way|
  {
    hide Times, ScannedBodies, VisitBodies, Skipped;
    var x := Site(way, c);
    TimesNone(x);
    if s.Compound? && !Skipped(path, s.kind) {
      ScannedBodiesCount(s.bodies, |s.bodies|, x);
      VisitBodiesCount(path, s.bodies, |s.bodies|, x);
      TimesAppend(if Scans(s.kind) then ScannedBodies(s.bodies, |s.bodies|) else [], VisitBodies(path, s.bodies, |s.bodies|), x);
      if way != [] && way[0].body < |s.bodies| && way[0].index < |s.bodies[way[0].body].stmts| {
        EachSiteOnce(path, s.bodies[way[0].body].stmts[way[0].index], way[1..], c);
      }
    }
  }

  // ----- the file's report

  /** What the self-lint says of one exempt comment. */
  function Lint(path: string, categories: set<string>, used: set<int>, line: int, category: Option<string>): seq<Violation> {
    if category.None? then [Violation(path, line, MissingCategory)]
    else if category.value !in categories then [Violation(path, line, UnknownCategory)]
    else if line !in used then [Violation(path, line, Orphan)]
    else []
  }

  function Lints(path: string, categories: set<string>, used: set<int>, exempt: Exempt, lines: seq<int>): seq<Violation>
    requires forall l | l in lines :: l in exempt
  {
    if lines == [] then []
    else Lints(path, categories, used, exempt, lines[..|lines| - 1])
         + Lint(path, categories, used, lines[|lines| - 1], exempt[lines[|lines| - 1]])
  }

  /** What the lint reports of the listed comments: one without a category, one with an unknown category, or a well-named one that nothing used. */
  lemma {:induction false} LintsExactly(path: string, categories: set<string>, used: set<int>, exempt: Exempt, lines: seq<int>, v: Violation)
    requires forall l | l in lines :: l in exempt
    ensures v in Lints(path, categories, used, exempt, lines)
       <==> v.path == path && v.line in lines && Deserved(categories, used, v.line, exempt[v.line], v.rule)
  {
    hide Lint, Deserved;
    if lines != [] {
      var n := |lines| - 1;
      LintsExactly(path, categories, used, exempt, lines[..n], v);
      LintExactly(path, categories, used, lines[n], exempt[lines[n]], v);
      assert lines == lines[..n] + [lines[n]];
    }
  }

  /** What an exempt comment is reported for: no category, an unknown one, or no mutation in its reach. */
  predicate Deserved(categories: set<string>, used: set<int>, line: int, category: Option<string>, rule: Rule) {
    match rule
    case MissingCategory => category == None
    case UnknownCategory => category.Some? && category.value !in categories
    case Orphan => category.Some? && category.value in categories && line !in used
    case _ => false
  }

  lemma LintExactly(path: string, categories: set<string>, used: set<int>, line: int, category: Option<string>, v: Violation)
    ensures v in Lint(path, categories, used, line, category)
       <==> v.path == path && v.line == line && Deserved(categories, used, line, category, v.rule)
  {
  }

  /** `lines` lists the exempt comments, each once, in the order they were tokenized. */
  ghost predicate Lists(lines: seq<int>, exempt: Exempt) {
    && (forall l :: l in lines <==> l in exempt)
    && forall i, j | 0 <= i < j < |lines| :: lines[i] != lines[j]
  }

  /** The visit's log of a whole file. */
  function Visited(path: string, exempt: Exempt, tree: Stmt): Log {
    Checked(path, exempt, Log([], {}), Visits(path, tree))
  }

  method CheckFile(path: string, tree: Stmt, exempt: Exempt, lines: seq<int>, categories: set<string>)
    returns (violations: seq<Violation>)
    requires Lists(lines, exempt)
    ensures violations == Visited(path, exempt, tree).violations
                          + Lints(path, categories, Visited(path, exempt, tree).used, exempt, lines)
  {
    var visitor := new Visitor(path, exempt);
    visitor.Visit(tree);
    var lints := SelfLint(path, categories, visitor.used, exempt, lines);
    violations := visitor.violations + lints;
  }

  method SelfLint(path: string, categories: set<string>, used: set<int>, exempt: Exempt, lines: seq<int>)
    returns (violations: seq<Violation>)
    requires forall l | l in lines :: l in exempt
    ensures violations == Lints(path, categories, used, exempt, lines)
  {
    violations := [];
    for i := 0 to |lines|
      invariant violations == Lints(path, categories, used, exempt, lines[..i])
    {
      var line := lines[i];
      assert lines[..i + 1][..i] == lines[..i];
      if exempt[line].None? {
        violations := violations + [Violation(path, line, MissingCategory)];
      } else if exempt[line].value !in categories {
        violations := violations + [Violation(path, line, UnknownCategory)];
      } else if line !in used {
        violations := violations + [Violation(path, line, Orphan)];
      }
    }
    assert lines[..|lines|] == lines;
  }

  /** A comment is used exactly when it reaches a checked mutation. */
  lemma {:induction false} UsedByACheckedSite(path: string, exempt: Exempt, log: Log, sites: seq<Site>, l: int)
    ensures l in Checked(path, exempt, log, sites).used
       <==> l in log.used || exists x: Site :: x in sites && l in Uses(path, exempt, x.stmt)
  {
    hide Uses;
    if sites != [] {
      var n := |sites| - 1;
      UsedByACheckedSite(path, exempt, log, sites[..n], l);
      assert sites == sites[..n] + [sites[n]];
    }
  }

  /** The self-lint reports each comment at most once: none when it is well-named and used. */
  lemma {:induction false} LintsOnce(path: string, categories: set<string>, used: set<int>, exempt: Exempt, lines: seq<int>, v: Violation)
    requires forall l | l in lines :: l in exempt
    requires forall i, j | 0 <= i < j < |lines| :: lines[i] != lines[j]
    ensures Times(Lints(path, categories, used, exempt, lines), v)
         == if v.line in lines && Lint(path, categories, used, v.line, exempt[v.line]) == [v] then 1 else 0
  {
    hide Times, Lint;
    if lines == [] {
      TimesNone(v);
    } else {
      var n := |lines| - 1;
      var front, last := lines[..n], lines[n];
      LintsOnce(path, categories, used, exempt, front, v);
      TimesAppend(Lints(path, categories, used, exempt, front), Lint(path, categories, used, last, exempt[last]), v);
      LintOnce(path, categories, used, last, exempt[last], v);
      assert lines == front + [last] && last !in front;
    }
  }

  lemma LintOnce(path: string, categories: set<string>, used: set<int>, line: int, category: Option<string>, v: Violation)
    ensures var lint := Lint(path, categories, used, line, category);
            Times(lint, v) == if v.line == line && lint == [v] then 1 else 0
  {
  }

  /**
   An exempt comment with a known category is reported as orphaned, once, exactly when no checked
   mutation anywhere in the file is on one of its lines or just below it. A mutation in a body
   that is not scanned (a class, a match case, an async for, a try-star) does not count as one.
   */
  lemma OrphanExactly(path: string, tree: Stmt, exempt: Exempt, lines: seq<int>, categories: set<string>, l: int)
    requires Lists(lines, exempt) && l in exempt && exempt[l].Some? && exempt[l].value in categories
    ensures Times(Lints(path, categories, Visited(path, exempt, tree).used, exempt, lines), Violation(path, l, Orphan))
         == if exists way, c :: CheckedAt(path, tree, way, c) && l in Uses(path, exempt, c) then 0 else 1
  {
    var sites := Visits(path, tree);
    LintsOnce(path, categories, Visited(path, exempt, tree).used, exempt, lines, Violation(path, l, Orphan));
    UsedByACheckedSite(path, exempt, Log([], {}), sites, l);
    hide Visits, Uses, Lists, Checked;
    if x: Site :| x in sites && l in Uses(path, exempt, x.stmt) {
      EachSiteOnce(path, tree, x.way, x.stmt);
      assert x == Site(x.way, x.stmt) && Times(sites, x) > 0;
      assert CheckedAt(path, tree, x.way, x.stmt);
    }
    if way, c :| CheckedAt(path, tree, way, c) && l in Uses(path, exempt, c) {
      EachSiteOnce(path, tree, way, c);
      assert Site(way, c) in multiset(sites);
    }
  }

  // ----- which bodies are checked, kind by kind

  /** The statement has a body that a check goes through. */
  predicate Owner(kind: Kind) {
    match kind
    case Module => true
    case Function(_) => true
    case If => true
    case Try => true
    case For => true
    case While => true
    case With => true
    case AsyncWith => true
    case _ => false
  }

  /** A helper that is never entered. */
  ghost predicate Helper(path: string, s: Stmt) {
    s.Compound?
    && ((s.kind == Function("fast_rmtree") && Names(path, "utils.py"))
        || (s.kind == Function("delete_and_account") && Names(path, "du_sentinels.py")))
  }

  /** Following `front` one comes, through no such helper, to a node of this kind, and `c` stands in its bodies at `step`. */
  ghost predicate Stands(path: string, s: Stmt, front: seq<Step>, kind: Kind, step: Step, c: Stmt)
    decreases |front|
  {
    var at := if front == [] then step else front[0];
    && s.Compound? && !Helper(path, s)
    && at.body < |s.bodies| && at.index < |s.bodies[at.body].stmts|
    && var child := s.bodies[at.body].stmts[at.index];
       if front == [] then s.kind == kind && child == c else Stands(path, child, front[1..], kind, step, c)
  }

  /** The checked places are those in the bodies of an owner, outside the helpers. */
  lemma {:induction false} CheckedExactly(path: string, tree: Stmt, front: seq<Step>, step: Step, c: Stmt)
    ensures CheckedAt(path, tree, front + [step], c) <==> exists kind :: Owner(kind) && Stands(path, tree, front, kind, step, c)
    decreases |front|
  {
    if tree.Compound? { SkippedExactly(path, tree.kind); }
    hide Skipped, Names;
    var way := front + [step];
    if front == [] {
      if tree.Compound? { assert Scans(tree.kind) <==> Owner(tree.kind); }
      assert way[0] == step && |way| == 1;
    } else {
      var at := front[0];
      assert way[0] == at && way[1..] == front[1..] + [step];
      if tree.Compound? && at.body < |tree.bodies| && at.index < |tree.bodies[at.body].stmts| {
        CheckedExactly(path, tree.bodies[at.body].stmts[at.index], front[1..], step, c);
      }
    }
  }

  lemma {:induction false} OneKind(path: string, s: Stmt, front: seq<Step>, a: Kind, b: Kind, step: Step, c: Stmt)
    requires Stands(path, s, front, a, step, c) && Stands(path, s, front, b, step, c)
    ensures a == b
    decreases |front|
  {
    if front != [] {
      OneKind(path, s.bodies[front[0].body].stmts[front[0].index], front[1..], a, b, step, c);
    }
  }

  /**
   Kind by kind: outside the helpers a statement in a body of a module, a function, an `if`, `try`,
   `for`, `while`, `with` or async `with` is checked exactly once; one directly in a class, a match case,
   an `async for` or a `try*` is checked nowhere.
   */
  lemma CheckedByKind(path: string, tree: Stmt, front: seq<Step>, kind: Kind, step: Step, c: Stmt)
    requires Stands(path, tree, front, kind, step, c)
    ensures kind.Module? || kind.Function? || kind.If? || kind.Try? || kind.For? || kind.While? || kind.With? || kind.AsyncWith? ==>
              Times(Visits(path, tree), Site(front + [step], c)) == 1
    ensures kind.Class? || kind.Match? || kind.AsyncFor? || kind.TryStar? ==>
              Times(Visits(path, tree), Site(front + [step], c)) == 0
  {
    EachSiteOnce(path, tree, front + [step], c);
    CheckedExactly(path, tree, front, step, c);
    forall k | Stands(path, tree, front, k, step, c) ensures k == kind { OneKind(path, tree, front, k, kind, step, c); }
    hide Stands, CheckedAt, Visits, Times;
  }

  /** No exempt comment reaches the statement. */
  predicate Uncommented(exempt: Exempt, s: Stmt)
    requires s.Call?
  {
    forall l | l in exempt :: l != s.line - 1 && !(s.line <= l <= if s.end == 0 then s.line else s.end)
  }

  /**
   What a file's visit reports, read off its tree: a bare call under a rule, in a body of one of those
   kinds outside the helpers, that no exempt comment reaches, at its first line.
   */
  lemma ReportedExactly(path: string, exempt: Exempt, tree: Stmt, v: Violation)
    ensures v in Visited(path, exempt, tree).violations
       <==> v.path == path && exists front, kind, step, c ::
              && Stands(path, tree, front, kind, step, c) && Owner(kind)
              && c.Call? && c.line == v.line && RuleFor(path, c) == Some(v.rule) && Uncommented(exempt, c)
  {
    VisitReports(path, exempt, Visits(path, tree), v);
    hide Stands, Visits, RuleFor, Uncommented;
    if x: Site :| x in Visits(path, tree) && Reports(path, exempt, x.stmt, v) {
      EachSiteOnce(path, tree, x.way, x.stmt);
      assert Times(Visits(path, tree), x) > 0 && x == Site(x.way, x.stmt);
      assert CheckedAt(path, tree, x.way, x.stmt);
      var front, step := x.way[..|x.way| - 1], x.way[|x.way| - 1];
      assert x.way == front + [step];
      CheckedExactly(path, tree, front, step, x.stmt);
    }
    if front, kind, step, c :|
      Stands(path, tree, front, kind, step, c) && Owner(kind) && c.Call? && Reports(path, exempt, c, v)
    {
      CheckedExactly(path, tree, front, step, c);
      EachSiteOnce(path, tree, front + [step], c);
      assert Site(front + [step], c) in Visits(path, tree);
    }
  }

  predicate Reports(path: string, exempt: Exempt, s: Stmt, v: Violation) {
    s.Call? && v.path == path && v.line == s.line && RuleFor(path, s) == Some(v.rule) && Uncommented(exempt, s)
  }

  lemma {:induction false} VisitReports(path: string, exempt: Exempt, sites: seq<Site>, v: Violation)
    ensures v in Checked(path, exempt, Log([], {}), sites).violations <==> exists x | x in sites :: Reports(path, exempt, x.stmt, v)
    decreases |sites|
  {
    if sites != [] {
      var n := |sites| - 1;
      VisitReports(path, exempt, sites[..n], v);
      assert sites == sites[..n] + [sites[n]];
      OneVerdict(path, exempt, sites[n].stmt, v);
      hide Verdict, Reports, Uses;
    }
  }

  lemma OneVerdict(path: string, exempt: Exempt, s: Stmt, v: Violation)
    ensures v in Verdict(path, exempt, s) <==> Reports(path, exempt, s, v)
  {
    if RuleFor(path, s).Some? {
      assert ExemptLines(s, exempt) == {} <==> Uncommented(exempt, s) by {
        if !Uncommented(exempt, s) {
          var l :| l in exempt && (l == s.line - 1 || s.line <= l <= if s.end == 0 then s.line else s.end);
          assert l in ExemptLines(s, exempt);
        }
      }
    }
    hide RuleFor;
  }

  // ----- two small files

  const UNLINK2 := Call(2, 2, Some("unlink"))
  const UNLINK3 := Call(3, 3, Some("unlink"))

  /** A node with one body is checked as that body, statement by statement, and then as what is nested in it. */
  lemma OneBody(path: string, kind: Kind, body: Body)
    requires !Skipped(path, kind) && Scans(kind)
    ensures Visits(path, Compound(kind, [body])) == Scanned(body, 0, |body.stmts|) + VisitBody(path, body, 0, |body.stmts|)
  {
    hide Scanned, VisitBody;
    var bodies := [body];
    assert ScannedBodies(bodies, 0) == [] && VisitBodies(path, bodies, 0) == [];
    assert ScannedBodies(bodies, 1) == [] + Scanned(body, 0, |body.stmts|);
    assert VisitBodies(path, bodies, 1) == [] + VisitBody(path, body, 0, |body.stmts|);
  }

  /** Of a body that holds one node and a call after it: the node, the call, and then what is nested in the node. */
  lemma NodeAndCall(path: string, kind: Kind, node: Stmt, calls: seq<Stmt>)
    requires !Skipped(path, kind) && Scans(kind) && |calls| <= 1 && forall c | c in calls :: c.Call?
    ensures Visits(path, Compound(kind, [Body([node] + calls)]))
         == [Site([Step(0, 0)], node)] + (if calls == [] then [] else [Site([Step(0, 1)], calls[0])])
            + Lift(Step(0, 0), Visits(path, node))
  {
    var body := Body([node] + calls);
    OneBody(path, kind, body);
    ScannedFront(body, [node], calls);
    VisitedFront(path, body, node, calls);
    hide Visits, Lift, Scanned, VisitBody, Scans, Skipped;
  }

  lemma ScannedFront(body: Body, front: seq<Stmt>, calls: seq<Stmt>)
    requires body.stmts == front + calls && |front| == 1 && |calls| <= 1
    ensures Scanned(body, 0, |body.stmts|)
         == [Site([Step(0, 0)], front[0])] + if calls == [] then [] else [Site([Step(0, 1)], calls[0])]
  {
    assert Scanned(body, 0, 0) == [];
    assert Scanned(body, 0, 1) == [] + [Site([Step(0, 0)], front[0])];
  }

  lemma VisitedFront(path: string, body: Body, node: Stmt, calls: seq<Stmt>)
    requires body.stmts == [node] + calls && |calls| <= 1 && forall c | c in calls :: c.Call?
    ensures VisitBody(path, body, 0, |body.stmts|) == Lift(Step(0, 0), Visits(path, node))
  {
    var nested := Lift(Step(0, 0), Visits(path, node));
    assert calls != [] ==> calls[0] in calls && Visits(path, calls[0]) == [] && Lift(Step(0, 1), []) == [];
    hide Visits, Lift;
    assert VisitBody(path, body, 0, 0) == [];
    assert VisitBody(path, body, 0, 1) == [] + nested;
    if calls != [] { assert VisitBody(path, body, 0, 2) == nested + []; }
  }

  lemma OneCall(path: string, kind: Kind, c: Stmt)
    requires !Skipped(path, kind) && Scans(kind) && c.Call?
    ensures Visits(path, Compound(kind, [Body([c])])) == [Site([Step(0, 0)], c)]
  {
    assert [c] + [] == [c] && Visits(path, c) == [];
    NodeAndCall(path, kind, c, []);
  }

  /** A deletion in a function is reported. */
  lemma FunctionBodyIsReported(path: string)
    ensures Visited(path, map[], Compound(Module, [Body([Compound(Function("f"), [Body([UNLINK2])])])])).violations
         == [Violation(path, 2, NotRouted)]
  {
    var f := Compound(Function("f"), [Body([UNLINK2])]);
    OneCall(path, Function("f"), UNLINK2);
    assert [f] + [] == [f];
    NodeAndCall(path, Module, f, []);
    NestedCall(UNLINK2);
    hide Visits, Lift;
    assert [Site([Step(0, 0)], f)] + [] == [Site([Step(0, 0)], f)];
    TwoReports(path, f, UNLINK2);
  }

  /** A node that is no call reports nothing; a deletion behind it does. */
  lemma TwoReports(path: string, f: Stmt, c: Stmt)
    requires f.Compound? && c.Call? && c.name == Some("unlink")
    ensures Checked(path, map[], Log([], {}), [Site([Step(0, 0)], f)] + [Site([Step(0, 0), Step(0, 0)], c)]).violations
         == [Violation(path, c.line, NotRouted)]
  {
    var a, log := Site([Step(0, 0)], f), Log([], {});
    NodeReportsNothing(path, a);
    DeletionIsReported(path, c);
    OneMoreCheck(path, map[], log, [a], Site([Step(0, 0), Step(0, 0)], c));
    hide Checked, RuleFor, ExemptLines, Verdict;
  }

  lemma NodeReportsNothing(path: string, a: Site)
    requires a.stmt.Compound?
    ensures Checked(path, map[], Log([], {}), [a]).violations == []
  {
    NothingChecked(path, map[], Log([], {}));
    OneMoreCheck(path, map[], Log([], {}), [], a);
    assert [] + [a] == [a];
    hide Checked;
  }

  lemma NestedCall(c: Stmt)
    ensures Lift(Step(0, 0), [Site([Step(0, 0)], c)]) == [Site([Step(0, 0), Step(0, 0)], c)]
  {
    var at := Step(0, 0);
    assert [Site([at], c)][1..] == [] && Lift(at, []) == [] && [at] + [at] == [at, at];
  }

  lemma DeletionIsReported(path: string, c: Stmt)
    requires c.Call? && c.name == Some("unlink")
    ensures Verdict(path, map[], c) == [Violation(path, c.line, NotRouted)] && RuleFor(path, c).Some?
    ensures ExemptLines(c, map[]) == {}
  {
    RuleByName(path, c.line, c.end, "unlink");
    hide RuleFor;
  }

  /** Of a deletion inside an `if` and one after it the second is reported first: a body is gone through before what is nested in it. */
  lemma NestedComesLater(path: string)
    ensures Visited(path, map[], Compound(Module, [Body([Compound(If, [Body([UNLINK2])]), UNLINK3])])).violations
         == [Violation(path, 3, NotRouted), Violation(path, 2, NotRouted)]
  {
    var f := Compound(If, [Body([UNLINK2])]);
    OneCall(path, If, UNLINK2);
    assert [f] + [UNLINK3] == [f, UNLINK3];
    NodeAndCall(path, Module, f, [UNLINK3]);
    NestedCall(UNLINK2);
    hide Visits, Lift;
    ThreeReports(path, f, UNLINK3, UNLINK2);
  }

  lemma ThreeReports(path: string, f: Stmt, b: Stmt, c: Stmt)
    requires f.Compound? && b.Call? && c.Call? && b.name == Some("unlink") && c.name == Some("unlink")
    ensures Checked(path, map[], Log([], {}),
                    [Site([Step(0, 0)], f)] + [Site([Step(0, 1)], b)] + [Site([Step(0, 0), Step(0, 0)], c)]).violations
         == [Violation(path, b.line, NotRouted), Violation(path, c.line, NotRouted)]
  {
    var a, log := Site([Step(0, 0)], f), Log([], {});
    NodeReportsNothing(path, a);
    DeletionIsReported(path, b);
    DeletionIsReported(path, c);
    OneMoreCheck(path, map[], log, [a], Site([Step(0, 1)], b));
    OneMoreCheck(path, map[], log, [a] + [Site([Step(0, 1)], b)], Site([Step(0, 0), Step(0, 0)], c));
    hide Checked, RuleFor, ExemptLines, Verdict;
  }

  /** A deletion directly in a class body, with its exempt comment on the line above. */
  const CLASS_BODY: Stmt := Compound(Module, [Body([Compound(Class, [Body([Call(3, 3, Some("unlink"))])])])])

  /** It is a mutation by the rules, it is checked nowhere, and its comment is reported as orphaned. */
  lemma ClassBodyIsMissed(path: string, category: string)
    ensures var exempt: Exempt := map[2 := Some(category)];
            && RuleFor(path, Call(3, 3, Some("unlink"))) == Some(NotRouted)
            && (forall way :: !CheckedAt(path, CLASS_BODY, way, Call(3, 3, Some("unlink"))))
            && Lints(path, {category}, Visited(path, exempt, CLASS_BODY).used, exempt, [2]) == [Violation(path, 2, Orphan)]
  {
    forall way, c | CheckedAt(path, CLASS_BODY, way, c) ensures !c.Call? { OnlyTheClass(path, way, c); }
    hide CheckedAt, CLASS_BODY, Lints, Visited;
    NoCallNoComment(path, CLASS_BODY, 2, category);
  }

  /** Where no call is checked, a known comment is an orphan. */
  lemma NoCallNoComment(path: string, tree: Stmt, l: int, category: string)
    requires forall way, c | CheckedAt(path, tree, way, c) :: !c.Call?
    ensures var exempt: Exempt := map[l := Some(category)];
            Lints(path, {category}, Visited(path, exempt, tree).used, exempt, [l]) == [Violation(path, l, Orphan)]
  {
    var exempt: Exempt := map[l := Some(category)];
    assert Lists([l], exempt) by { assert [l][0] == l; }
    NoCallNoUse(path, exempt);
    hide CheckedAt, Uses, Lints, Visited, Times, Lists;
    OrphanExactly(path, tree, exempt, [l], {category}, l);
    OneLint(path, {category}, Visited(path, exempt, tree).used, exempt, l);
  }

  /** The module's body is scanned, the class's is not. */
  lemma OnlyTheClass(path: string, way: seq<Step>, c: Stmt)
    requires CheckedAt(path, CLASS_BODY, way, c)
    ensures !c.Call?
  {
    var class_ := CLASS_BODY.bodies[0].stmts[0];
    assert way[0] == Step(0, 0) && class_.kind == Class;
    if |way| > 1 { NothingInside(path, class_, way[1..], c); }
  }

  /** Nothing is checked inside a node that does not scan its bodies and has no node below it. */
  lemma NothingInside(path: string, s: Stmt, way: seq<Step>, c: Stmt)
    requires s.Compound? && !Scans(s.kind) && forall b | b in s.bodies :: forall t | t in b.stmts :: !t.Compound?
    ensures !CheckedAt(path, s, way, c)
  {
  }

  lemma NoCallNoUse(path: string, exempt: Exempt)
    ensures forall c: Stmt | !c.Call? :: Uses(path, exempt, c) == {}
  {
  }

  lemma OneLint(path: string, categories: set<string>, used: set<int>, exempt: Exempt, l: int)
    requires l in exempt && Times(Lints(path, categories, used, exempt, [l]), Violation(path, l, Orphan)) == 1
    ensures Lints(path, categories, used, exempt, [l]) == [Violation(path, l, Orphan)]
  {
    assert [l][..0] == [];
  }

  // ----- one report per unexempted mutation

  predicate Unexempted(path: string, exempt: Exempt, s: Stmt) {
    RuleFor(path, s).Some? && ExemptLines(s, exempt) == {}
  }

  /** The checks that come to a report, in order. */
  function Offenders(path: string, exempt: Exempt, sites: seq<Site>): seq<Site> {
    if sites == [] then []
    else
      var n := |sites| - 1;
      Offenders(path, exempt, sites[..n]) + if Unexempted(path, exempt, sites[n].stmt) then [sites[n]] else []
  }

  /** The visit reports its offenders one for one, each at its own line under its own rule. */
  lemma {:induction false} OneReportPerOffender(path: string, exempt: Exempt, sites: seq<Site>)
    ensures var reports, offenders := Checked(path, exempt, Log([], {}), sites).violations, Offenders(path, exempt, sites);
            && |reports| == |offenders|
            && forall i | 0 <= i < |reports| ::
                 offenders[i].stmt.Call? && Some(reports[i].rule) == RuleFor(path, offenders[i].stmt)
                 && reports[i] == Violation(path, offenders[i].stmt.line, reports[i].rule)
  {
    if sites != [] {
      OneReportPerOffender(path, exempt, sites[..|sites| - 1]);
      hide RuleFor, ExemptLines;
    }
  }

  /** The offenders are the unexempted mutations at checked places, each place once. */
  lemma OffendersAreChecked(path: string, exempt: Exempt, tree: Stmt, way: seq<Step>, c: Stmt)
    ensures Times(Offenders(path, exempt, Visits(path, tree)), Site(way, c))
         == if CheckedAt(path, tree, way, c) && Unexempted(path, exempt, c) then 1 else 0
  {
    EachSiteOnce(path, tree, way, c);
    OffendersCount(path, exempt, Visits(path, tree), Site(way, c));
  }

  lemma {:induction false} OffendersCount(path: string, exempt: Exempt, sites: seq<Site>, x: Site)
    ensures Times(Offenders(path, exempt, sites), x) == if Unexempted(path, exempt, x.stmt) then Times(sites, x) else 0
  {
    hide Times, Unexempted;
    if sites == [] {
      TimesNone(x);
    } else {
      var n := |sites| - 1;
      var last := sites[n];
      var kept := if Unexempted(path, exempt, last.stmt) then [last] else [];
      OffendersCount(path, exempt, sites[..n], x);
      assert sites == sites[..n] + [last];
      TimesAppend(sites[..n], [last], x);
      TimesAppend(Offenders(path, exempt, sites[..n]), kept, x);
      TimesOne(last, x);
      TimesNone(x);
    }
  }
}
