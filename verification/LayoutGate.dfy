/**
 The layout-version gate over a commit graph: the file scan, Check B's walk over a pushed
 range, Check A's version step, and what the two guarantee about whole histories.
 Git is a value here: a repository is a sequence of commits, parents before children.
 */
module LayoutGate {
  import opened Wrappers
  import Allowlist
  import GlobRegex

  // ----- repositories

  /** A tree entry: file mode and content digest. */
  datatype Blob = Blob(mode: nat, hash: string)

  type Tree = map<string, Blob>

  /** One line of `git diff --name-status -M`: the status, and the last path on the line; a move also names its source. */
  datatype DiffLine = DiffLine(status: string, source: string, path: string)

  datatype Commit = Commit(
    parents: seq<nat>,
    version: nat,             // LAYOUT_VERSION
    tree: Tree,
    diff: seq<DiffLine>,      // against the first parent
    modules: set<nat>,        // versions with a migration module V{n}__*.py
    fixtures: set<nat>,       // versions with a fixture directory v{n}
    slug: Option<string>)     // normalised hash of compute_event_id_slug

  type Repo = seq<Commit>

  function Lookup(tree: Tree, path: string): Option<Blob> {
    if path in tree then Some(tree[path]) else None
  }

  /** Whole-file digest, None for an absent file. */
  function Content(tree: Tree, path: string): Option<string> {
    if path in tree then Some(tree[path].hash) else None
  }

  predicate IsMove(line: DiffLine) {
    line.status != "" && (line.status[0] == 'R' || line.status[0] == 'C')
  }

  /** The path is reported by a line that is neither a rename nor a copy. */
  ghost predicate Listed(diff: seq<DiffLine>, path: string) {
    exists l | l in diff :: !IsMove(l) && l.path == path
  }

  /** The path takes part in a reported rename or copy, on either side. */
  ghost predicate Moved(diff: seq<DiffLine>, path: string) {
    exists l | l in diff :: IsMove(l) && (path == l.path || path == l.source)
  }

  /** What git promises of a diff: listed paths differ, and a path that differs is listed or moved. */
  ghost predicate Faithful(before: Tree, after: Tree, diff: seq<DiffLine>) {
    && (forall path | Listed(diff, path) :: Lookup(before, path) != Lookup(after, path))
    && (forall path | Lookup(before, path) != Lookup(after, path) :: Listed(diff, path) || Moved(diff, path))
  }

  predicate Below(ids: seq<nat>, bound: nat) {
    forall i | 0 <= i < |ids| :: ids[i] < bound
  }

  ghost predicate Valid(repo: Repo) {
    forall c | 0 <= c < |repo| ::
      && Below(repo[c].parents, c)
      && (repo[c].parents != [] ==> Faithful(repo[repo[c].parents[0]].tree, repo[c].tree, repo[c].diff))
  }

  /** The version of the first parent. */
  function FirstParentVersion(repo: Repo, c: nat): nat
    requires Valid(repo) && c < |repo| && repo[c].parents != []
  {
    repo[repo[c].parents[0]].version
  }

  /** The commit and its ancestors. */
  function Reach(repo: Repo, c: nat): (r: set<nat>)
    requires Valid(repo) && c < |repo|
    ensures c in r && forall a | a in r :: a <= c
    decreases c, 1
  {
    {c} + ReachAny(repo, repo[c].parents, c)
  }

  function ReachAny(repo: Repo, tips: seq<nat>, bound: nat): (r: set<nat>)
    requires Valid(repo) && bound <= |repo| && Below(tips, bound)
    ensures forall a | a in r :: a < bound
    decreases bound, 0, |tips|
  {
    if tips == [] then {} else Reach(repo, tips[0]) + ReachAny(repo, tips[1..], bound)
  }

  lemma {:induction false} ReachAnyHolds(repo: Repo, tips: seq<nat>, bound: nat)
    requires Valid(repo) && bound <= |repo| && Below(tips, bound)
    ensures forall a :: a in ReachAny(repo, tips, bound) <==> exists t | t in tips :: a in Reach(repo, t)
    decreases |tips|
  {
    if tips != [] {
      ReachAnyHolds(repo, tips[1..], bound);
      forall a ensures a in ReachAny(repo, tips, bound) <==> exists t | t in tips :: a in Reach(repo, t) {
        if t :| t in tips && a in Reach(repo, t) {
          if t != tips[0] { assert t in tips[1..]; }
        }
      }
    }
  }

  lemma ParentWithin(repo: Repo, c: nat, p: nat)
    requires Valid(repo) && c < |repo| && p in repo[c].parents
    ensures p < c && Reach(repo, p) <= Reach(repo, c)
  {
    ReachAnyHolds(repo, repo[c].parents, c);
  }

  lemma ViaParent(repo: Repo, c: nat, a: nat) returns (p: nat)
    requires Valid(repo) && c < |repo| && a in Reach(repo, c) && a != c
    ensures p in repo[c].parents && p < c && a in Reach(repo, p)
  {
    ReachAnyHolds(repo, repo[c].parents, c);
    assert a in ReachAny(repo, repo[c].parents, c);
    p :| p in repo[c].parents && a in Reach(repo, p);
  }

  /** Reachability is transitive. */
  lemma {:induction false} ReachTransitive(repo: Repo, c: nat, a: nat)
    requires Valid(repo) && c < |repo| && a in Reach(repo, c)
    ensures Reach(repo, a) <= Reach(repo, c)
    decreases c
  {
    if a != c {
      var p := ViaParent(repo, c, a);
      ReachTransitive(repo, p, a);
      ParentWithin(repo, c, p);
    }
  }

  /** A way down the graph, from a commit to one of its parents at every step. */
  ghost predicate Ancestry(repo: Repo, way: seq<nat>) {
    && way != [] && Below(way, |repo|)
    && forall i, j | 0 <= i && j == i + 1 && j < |way| :: way[j] in repo[way[i]].parents
  }

  /** The ancestors are what the ways down the graph lead to. */
  lemma {:induction false} ReachExactly(repo: Repo, c: nat, a: nat)
    requires Valid(repo) && c < |repo|
    ensures a in Reach(repo, c) <==> exists way :: Ancestry(repo, way) && way[0] == c && way[|way| - 1] == a
    decreases c
  {
    if a in Reach(repo, c) { var way := WayTo(repo, c, a); }
    hide Reach;
    if way :| Ancestry(repo, way) && way[0] == c && way[|way| - 1] == a { WayReaches(repo, way); }
  }

  lemma {:induction false} WayTo(repo: Repo, c: nat, a: nat) returns (way: seq<nat>)
    requires Valid(repo) && c < |repo| && a in Reach(repo, c)
    ensures Ancestry(repo, way) && way[0] == c && way[|way| - 1] == a
    decreases c
  {
    if a == c {
      way := [c];
    } else {
      var p := ViaParent(repo, c, a);
      var rest := WayTo(repo, p, a);
      hide Reach, Valid;
      way := [c] + rest;
    }
  }

  lemma {:induction false} WayReaches(repo: Repo, way: seq<nat>)
    requires Valid(repo) && Ancestry(repo, way)
    ensures way[|way| - 1] in Reach(repo, way[0])
    decreases |way|
  {
    if |way| > 1 {
      assert Ancestry(repo, way[1..]);
      WayReaches(repo, way[1..]);
      ParentWithin(repo, way[0], way[1]);
    }
  }

  // ----- the file scan

  /** The part of the sentinel file the scan reads. */
  datatype Rules = Rules(paths: set<string>, globs: seq<string>, rows: seq<Allowlist.Yaml>)

  predicate Governed(rules: Rules, rel: string) {
    rel in rules.paths || exists i | 0 <= i < |rules.globs| :: GlobRegex.LayoutGlobMatch(rel, rules.globs[i])
  }

  /** The path's exemption row covers the content it has in this tree. */
  predicate Signed(allow: Allowlist.Table, tree: Tree, rel: string) {
    var key := Allowlist.Str(rel);
    key in allow && allow[key].signature.Some? && Content(tree, rel) == allow[key].signature
  }

  /** The changed paths of a diff: the last field of every line that is not a rename or copy. */
  function ChangedFiles(diff: seq<DiffLine>): seq<string> {
    if diff == [] then []
    else
      var n := |diff| - 1;
      ChangedFiles(diff[..n]) + (if IsMove(diff[n]) then [] else [diff[n].path])
  }

  function Hits(changed: seq<string>, rules: Rules, allow: Allowlist.Table, tree: Tree): seq<string> {
    if changed == [] then []
    else
      var n := |changed| - 1;
      var p := changed[n];
      Hits(changed[..n], rules, allow, tree) + (if !Signed(allow, tree, p) && Governed(rules, p) then [p] else [])
  }

  /** The scan's own refusal: a row without a signature reached the comparison. */
  datatype Tripwire = Tripwire(path: string)

  /** Some changed path has a row but no signature to compare with. */
  ghost predicate Trips(changed: seq<string>, allow: Allowlist.Table) {
    exists p | p in changed :: Allowlist.Str(p) in allow && allow[Allowlist.Str(p)].signature == None
  }

  /** Check B's scan of a materialised change set against the contents of one tree. */
  method ScanChangedFiles(changed: seq<string>, rules: Rules, allow: Allowlist.Table, tree: Tree)
    returns (r: Result<seq<string>, Tripwire>)
    ensures r.Err? <==> Trips(changed, allow)
    ensures r.Ok? ==> r.value == Hits(changed, rules, allow, tree)
    ensures r.Ok? ==> forall p :: p in r.value <==> p in changed && NotSigned(allow, tree, p) && Relevant(rules, p)
  {
    HitsExactly(changed, rules, allow, tree);
    hide Relevant, NotSigned;
    var relevant := [];
    for i := 0 to |changed|
      invariant relevant == Hits(changed[..i], rules, allow, tree)
      invariant !Trips(changed[..i], allow)
    {
      var rel := changed[i];
      assert changed[..i + 1] == changed[..i] + [rel];
      assert changed[..i + 1][..i] == changed[..i];
      var key := Allowlist.Str(rel);
      if key in allow {
        if allow[key].signature == None {
          assert rel in changed;
          return Err(Tripwire(rel));
        }
        if Content(tree, rel) == allow[key].signature {
          continue;
        }
      }
      if Governed(rules, rel) {
        relevant := relevant + [rel];
      }
    }
    assert changed[..|changed|] == changed;
    return Ok(relevant);
  }

  method ListChangedFiles(diff: seq<DiffLine>) returns (changed: seq<string>)
    ensures changed == ChangedFiles(diff)
  {
    changed := [];
    for i := 0 to |diff|
      invariant changed == ChangedFiles(diff[..i])
    {
      assert diff[..i + 1][..i] == diff[..i];
      if IsMove(diff[i]) {
        continue;
      }
      changed := changed + [diff[i].path];
    }
    assert diff[..|diff|] == diff;
  }

  lemma {:induction false} ChangedFilesListed(diff: seq<DiffLine>, path: string)
    ensures path in ChangedFiles(diff) <==> Listed(diff, path)
  {
    if diff != [] {
      var n := |diff| - 1;
      ChangedFilesListed(diff[..n], path);
      assert forall l :: l in diff <==> l in diff[..n] || l == diff[n];
    }
  }

  lemma {:induction false} HitsEmpty(changed: seq<string>, rules: Rules, allow: Allowlist.Table, tree: Tree)
    ensures Hits(changed, rules, allow, tree) == []
       <==> forall p | p in changed && Governed(rules, p) :: Signed(allow, tree, p)
  {
    hide Signed, Governed;
    if changed != [] {
      var n := |changed| - 1;
      HitsEmpty(changed[..n], rules, allow, tree);
      assert forall p :: p in changed <==> p in changed[..n] || p == changed[n];
    }
  }

  /** No row of the path carries the hash that the tree holds there. */
  predicate NotSigned(allow: Allowlist.Table, tree: Tree, path: string) {
    !(path in tree && Allowlist.Str(path) in allow && allow[Allowlist.Str(path)].signature == Some(tree[path].hash))
  }

  /** The path is listed in the sentinel file, or one of its globs reads it. */
  ghost predicate Relevant(rules: Rules, path: string) {
    path in rules.paths || exists g | g in rules.globs :: GlobRegex.GlobMatches(g, path)
  }

  lemma RelevantIsGoverned(rules: Rules, path: string)
    ensures Relevant(rules, path) <==> Governed(rules, path)
  {
    hide GlobRegex.GlobMatches, GlobRegex.LayoutGlobMatch;
    forall g ensures GlobRegex.LayoutGlobMatch(path, g) <==> GlobRegex.GlobMatches(g, path) {
      GlobRegex.GlobMatchCorrect(g, path);
    }
    if g :| g in rules.globs && GlobRegex.GlobMatches(g, path) {
      var i :| 0 <= i < |rules.globs| && rules.globs[i] == g;
      assert GlobRegex.LayoutGlobMatch(path, rules.globs[i]);
    }
  }

  /** What the scan reports: the changed paths that the sentinel file names, or a glob of it reads, and that no row signs as they are. */
  lemma {:induction false} HitsExactly(changed: seq<string>, rules: Rules, allow: Allowlist.Table, tree: Tree)
    ensures forall p :: p in Hits(changed, rules, allow, tree)
                        <==> p in changed && NotSigned(allow, tree, p) && Relevant(rules, p)
  {
    hide Governed, Relevant;
    if changed != [] {
      var n := |changed| - 1;
      HitsExactly(changed[..n], rules, allow, tree);
      RelevantIsGoverned(rules, changed[n]);
      assert changed == changed[..n] + [changed[n]];
    }
  }

  /** Reported paths come in the order of the change set, each as often as it stands there. */
  lemma {:induction false} HitsInOrder(a: seq<string>, b: seq<string>, rules: Rules, allow: Allowlist.Table, tree: Tree)
    ensures Hits(a + b, rules, allow, tree) == Hits(a, rules, allow, tree) + Hits(b, rules, allow, tree)
    ensures |a| == 1 ==> Hits(a, rules, allow, tree) == [] || Hits(a, rules, allow, tree) == a
    decreases |b|
  {
    hide Governed, Signed;
    if |a| == 1 { assert a[..0] == []; }
    if b == [] {
      assert a + b == a;
    } else {
      var n := |b| - 1;
      assert (a + b)[..|a| + n] == a + b[..n];
      HitsInOrder(a, b[..n], rules, allow, tree);
    }
  }

  /** The change set: the last path of every line whose status is neither a rename's nor a copy's, in order. */
  lemma {:induction false} ChangedFilesExactly(a: seq<DiffLine>, b: seq<DiffLine>)
    ensures ChangedFiles(a + b) == ChangedFiles(a) + ChangedFiles(b)
    ensures |a| == 1 ==> ChangedFiles(a) == if "R" <= a[0].status || "C" <= a[0].status then [] else [a[0].path]
    decreases |b|
  {
    if |a| == 1 { assert a[..0] == []; }
    if b == [] {
      assert a + b == a;
    } else {
      var n := |b| - 1;
      assert (a + b)[..|a| + n] == a + b[..n];
      ChangedFilesExactly(a, b[..n]);
    }
  }

  // ----- Check B over a pushed range

  /** `rev-list --reverse from..to --not remotes`, oldest first. */
  function RevList(repo: Repo, from: nat, to: nat, remotes: seq<nat>): (commits: seq<nat>)
    requires Valid(repo) && from < |repo| && to < |repo| && Below(remotes, |repo|)
    ensures Below(commits, |repo|)
  {
    Filter(repo, Reach(repo, to) - Reach(repo, from) - ReachAny(repo, remotes, |repo|), |repo|)
  }

  function Filter(repo: Repo, wanted: set<nat>, n: nat): (r: seq<nat>)
    requires n <= |repo|
    ensures Below(r, n)
    ensures forall c :: c in r <==> c in wanted && c < n
    ensures forall i, j | 0 <= i < j < |r| :: r[i] < r[j]
  {
    if n == 0 then [] else Filter(repo, wanted, n - 1) + (if n - 1 in wanted then [n - 1] else [])
  }

  /**
   The graded commits: what the new tip has and neither the old tip nor a remote has, each once,
   and a commit after every ancestor of its own that is graded too.
   */
  lemma RevListExactly(repo: Repo, from: nat, to: nat, remotes: seq<nat>)
    requires Valid(repo) && from < |repo| && to < |repo| && Below(remotes, |repo|)
    ensures var commits := RevList(repo, from, to, remotes);
            && (forall c :: c in commits <==>
                  c in Reach(repo, to) && c !in Reach(repo, from) && !exists r | r in remotes :: c in Reach(repo, r))
            && forall i, j | 0 <= i < |commits| && 0 <= j < |commits| && commits[i] in Reach(repo, commits[j]) :: i <= j
  {
    ReachAnyHolds(repo, remotes, |repo|);
    var commits := RevList(repo, from, to, remotes);
    forall i, j | 0 <= i < |commits| && 0 <= j < |commits| && commits[i] in Reach(repo, commits[j]) ensures i <= j {
      assert commits[i] <= commits[j];
    }
  }

  /** The scan of one graded commit: skipped for a root and for a commit that raises the version. */
  function CommitHits(repo: Repo, c: nat, rules: Rules, allow: Allowlist.Table): seq<string>
    requires Valid(repo) && c < |repo|
  {
    var commit := repo[c];
    if commit.parents == [] || commit.version > repo[commit.parents[0]].version then []
    else Hits(ChangedFiles(commit.diff), rules, allow, commit.tree)
  }

  function Failures(repo: Repo, commits: seq<nat>, rules: Rules, allow: Allowlist.Table): seq<(nat, seq<string>)>
    requires Valid(repo) && Below(commits, |repo|)
  {
    if commits == [] then []
    else
      var n := |commits| - 1;
      var hits := CommitHits(repo, commits[n], rules, allow);
      Failures(repo, commits[..n], rules, allow) + (if hits != [] then [(commits[n], hits)] else [])
  }

  const SLUG_FUNC_SENTINEL := "src/hhemt/scenario.py::compute_event_id_slug"

  datatype VerdictB = VerdictB(failures: seq<(nat, seq<string>)>, slugDrift: bool) {
    predicate Passes() { failures == [] && !slugDrift }
  }

  /** The slug function differs between two states that both have it, and no row exempts it. */
  predicate Drifts(allow: Allowlist.Table, before: Option<string>, after: Option<string>) {
    Allowlist.Str(SLUG_FUNC_SENTINEL) !in allow && before.Some? && after.Some? && before != after
  }

  predicate SlugDrift(repo: Repo, from: nat, to: nat, allow: Allowlist.Table)
    requires from < |repo| && to < |repo|
  {
    Drifts(allow, repo[from].slug, repo[to].slug)
  }

  ghost predicate Scoped(allow: Allowlist.Table) {
    forall p | p in allow :: allow[p].signature.Some?
  }

  /** One round of the walk. On a table that loaded, the tripwire in the scan cannot fire. */
  method GradeCommit(repo: Repo, c: nat, rules: Rules, allow: Allowlist.Table) returns (hits: seq<string>)
    requires Valid(repo) && c < |repo| && Scoped(allow)
    ensures hits == CommitHits(repo, c, rules, allow)
  {
    if repo[c].parents == [] {
      return [];
    }
    if repo[c].version > repo[repo[c].parents[0]].version {
      return [];
    }
    var changed := ListChangedFiles(repo[c].diff);
    var scan := ScanChangedFiles(changed, rules, allow, repo[c].tree);
    if scan.Err? {
      assert false;
      return [];
    }
    return scan.value;
  }

  /** Check B at the pushing venue: load the committed rules, then grade each commit by its own diff. */
  method CheckBRange(repo: Repo, from: nat, to: nat, remotes: seq<nat>, rules: Rules)
    returns (r: Result<VerdictB, Allowlist.Refusal>)
    requires Valid(repo) && from < |repo| && to < |repo| && Below(remotes, |repo|)
    ensures r.Err? <==> Allowlist.Load(rules.rows).Err?
    ensures r.Ok? ==>
              var allow := Allowlist.Load(rules.rows).value;
              r.value == VerdictB(Failures(repo, RevList(repo, from, to, remotes), rules, allow),
                                  SlugDrift(repo, from, to, allow))
  {
    var loaded := Allowlist.LoadAllowlist(rules.rows);
    if loaded.Err? {
      return Err(loaded.error);
    }
    var allow := loaded.value;
    Allowlist.LoadedIsScoped(rules.rows);
    var commits := RevList(repo, from, to, remotes);
    var failures := WalkCommits(repo, commits, rules, allow);
    return Ok(VerdictB(failures, SlugDrift(repo, from, to, allow)));
  }

  method WalkCommits(repo: Repo, commits: seq<nat>, rules: Rules, allow: Allowlist.Table)
    returns (failures: seq<(nat, seq<string>)>)
    requires Valid(repo) && Below(commits, |repo|) && Scoped(allow)
    ensures failures == Failures(repo, commits, rules, allow)
  {
    hide CommitHits, Valid, Scoped;
    failures := [];
    for i := 0 to |commits|
      invariant failures == Failures(repo, commits[..i], rules, allow)
    {
      assert commits[..i + 1][..i] == commits[..i];
      var hits := GradeCommit(repo, commits[i], rules, allow);
      if hits != [] {
        failures := failures + [(commits[i], hits)];
      }
    }
    assert commits[..|commits|] == commits;
  }

  /** The graded commit answers for a change to this path: it is no root, raises no version, and git lists the path. */
  ghost predicate MustSign(repo: Repo, c: nat, rules: Rules, path: string)
    requires Valid(repo) && c < |repo|
  {
    && repo[c].parents != []
    && repo[c].version <= FirstParentVersion(repo, c)
    && Listed(repo[c].diff, path)
    && Governed(rules, path)
  }

  /** Everything the graded commit must answer for is signed by its own content. */
  ghost predicate Answered(repo: Repo, c: nat, rules: Rules, allow: Allowlist.Table)
    requires Valid(repo) && c < |repo|
  {
    forall path | MustSign(repo, c, rules, path) :: Signed(allow, repo[c].tree, path)
  }

  lemma CommitPasses(repo: Repo, c: nat, rules: Rules, allow: Allowlist.Table)
    requires Valid(repo) && c < |repo|
    ensures CommitHits(repo, c, rules, allow) == [] <==> Answered(repo, c, rules, allow)
  {
    if repo[c].parents != [] {
      HitsEmpty(ChangedFiles(repo[c].diff), rules, allow, repo[c].tree);
      forall path { ChangedFilesListed(repo[c].diff, path); }
    }
  }

  /** The walk's file scan passes exactly when every change a graded commit must answer for is signed at that commit. */
  lemma WalkPasses(repo: Repo, commits: seq<nat>, rules: Rules, allow: Allowlist.Table)
    requires Valid(repo) && Below(commits, |repo|)
    ensures Failures(repo, commits, rules, allow) == []
       <==> forall c | c in commits :: Answered(repo, c, rules, allow)
  {
    if Failures(repo, commits, rules, allow) == [] {
      forall c | c in commits ensures Answered(repo, c, rules, allow) {
        PassingCommit(repo, commits, rules, allow, c);
      }
    } else {
      var c := FailingCommit(repo, commits, rules, allow);
    }
  }

  lemma {:induction false} PassingCommit(repo: Repo, commits: seq<nat>, rules: Rules, allow: Allowlist.Table, c: nat)
    requires Valid(repo) && Below(commits, |repo|) && c in commits
    requires Failures(repo, commits, rules, allow) == []
    ensures Answered(repo, c, rules, allow)
  {
    var n := |commits| - 1;
    CommitPasses(repo, commits[n], rules, allow);
    if c != commits[n] {
      var front := commits[..n];
      assert c in front;
      PassingCommit(repo, front, rules, allow, c);
    }
  }

  lemma {:induction false} FailingCommit(repo: Repo, commits: seq<nat>, rules: Rules, allow: Allowlist.Table)
    returns (c: nat)
    requires Valid(repo) && Below(commits, |repo|)
    requires Failures(repo, commits, rules, allow) != []
    ensures c in commits && !Answered(repo, c, rules, allow)
  {
    var n := |commits| - 1;
    if CommitHits(repo, commits[n], rules, allow) != [] {
      c := commits[n];
      CommitPasses(repo, c, rules, allow);
    } else {
      c := FailingCommit(repo, commits[..n], rules, allow);
    }
  }

  // ----- one first-parent chain under Check B

  ghost predicate FirstParentEdge(repo: Repo, a: nat, b: nat)
    requires b < |repo|
  {
    repo[b].parents != [] && repo[b].parents[0] == a
  }

  ghost predicate FirstParentChain(repo: Repo, chain: seq<nat>) {
    && chain != []
    && Below(chain, |repo|)
    && forall i | 0 < i < |chain| :: FirstParentEdge(repo, chain[i - 1], chain[i])
  }

  lemma {:induction false} ChainAscends(repo: Repo, chain: seq<nat>, i: nat, j: nat)
    requires Valid(repo) && FirstParentChain(repo, chain) && i <= j < |chain|
    ensures chain[i] in Reach(repo, chain[j])
    ensures i < j ==> chain[i] < chain[j]
    decreases j - i
  {
    if i < j {
      assert FirstParentEdge(repo, chain[j - 1], chain[j]);
      assert chain[j - 1] in repo[chain[j]].parents;
      ChainAscends(repo, chain, i, j - 1);
      ParentWithin(repo, chain[j], chain[j - 1]);
    }
  }

  /** Every commit of a first-parent chain after its start is graded, unless a remote already has it. */
  lemma ChainIsGraded(repo: Repo, chain: seq<nat>, remotes: seq<nat>, i: nat)
    requires Valid(repo) && FirstParentChain(repo, chain) && 0 < i < |chain|
    requires Below(remotes, |repo|)
    requires chain[i] !in ReachAny(repo, remotes, |repo|)
    ensures chain[i] in RevList(repo, chain[0], chain[|chain| - 1], remotes)
  {
    ChainAscends(repo, chain, i, |chain| - 1);
    ChainAscends(repo, chain, 0, i);
  }

  /** The path has, in each commit of the chain up to `k`, its starting content, and `sig` from then on. */
  ghost predicate SettlesAt(repo: Repo, chain: seq<nat>, path: string, k: nat, sig: string)
    requires Below(chain, |repo|)
  {
    && 0 < k < |chain|
    && (forall i | 0 <= i < k :: Content(repo[chain[i]].tree, path) == Content(repo[chain[0]].tree, path))
    && (forall i | k <= i < |chain| :: Content(repo[chain[i]].tree, path) == Some(sig))
  }

  ghost predicate Constant(repo: Repo, chain: seq<nat>, path: string)
    requires Below(chain, |repo|)
  {
    forall i | 0 <= i < |chain| :: Content(repo[chain[i]].tree, path) == Content(repo[chain[0]].tree, path)
  }

  /** The walk answers for a change a commit makes: the commit has a parent, does not outgrow its first one, and lists a relevant path without moving it. */
  ghost predicate Unsettled(repo: Repo, c: nat, rules: Rules, allow: Allowlist.Table, path: string)
    requires c < |repo| && Below(repo[c].parents, |repo|)
  {
    var commit := repo[c];
    && |commit.parents| > 0 && commit.version <= repo[commit.parents[0]].version
    && (exists l | l in commit.diff :: l.path == path && !("R" <= l.status) && !("C" <= l.status))
    && Relevant(rules, path) && NotSigned(allow, commit.tree, path)
  }

  lemma {:induction false} ChangedPaths(diff: seq<DiffLine>, path: string)
    ensures path in ChangedFiles(diff) <==> exists l | l in diff :: l.path == path && !("R" <= l.status) && !("C" <= l.status)
  {
    if diff != [] {
      var n := |diff| - 1;
      ChangedPaths(diff[..n], path);
      assert diff == diff[..n] + [diff[n]];
    }
  }

  /** What the walk reports: each commit with something unsettled, in order, with just those paths. */
  lemma {:induction false} FailuresExactly(repo: Repo, commits: seq<nat>, rules: Rules, allow: Allowlist.Table)
    requires Valid(repo) && Below(commits, |repo|)
    ensures var failures := Failures(repo, commits, rules, allow);
            && (forall c | c in commits ::
                  (exists f | f in failures :: f.0 == c) <==> exists path :: Unsettled(repo, c, rules, allow, path))
            && (forall f | f in failures ::
                  && f.0 in commits
                  && forall path :: path in f.1 <==> Unsettled(repo, f.0, rules, allow, path))
  {
    hide Unsettled, CommitHits;
    if commits != [] {
      var n := |commits| - 1;
      var c := commits[n];
      assert commits == commits[..n] + [c];
      FailuresExactly(repo, commits[..n], rules, allow);
      CommitHitsExactly(repo, c, rules, allow);
      var failures := Failures(repo, commits, rules, allow);
      var hits := CommitHits(repo, c, rules, allow);
      if hits != [] {
        assert hits[0] in hits;
        assert (c, hits) in failures;
      }
      forall d | d in commits && d in commits[..n] ensures
        (exists f | f in failures :: f.0 == d) <==> exists path :: Unsettled(repo, d, rules, allow, path)
      {
      }
    }
  }

  lemma CommitHitsExactly(repo: Repo, c: nat, rules: Rules, allow: Allowlist.Table)
    requires Valid(repo) && c < |repo|
    ensures forall path :: path in CommitHits(repo, c, rules, allow) <==> Unsettled(repo, c, rules, allow, path)
  {
    hide Relevant, NotSigned;
    HitsExactly(ChangedFiles(repo[c].diff), rules, allow, repo[c].tree);
    forall path { ChangedPaths(repo[c].diff, path); }
  }

  /** Failing commits are reported in the order they are graded in. */
  lemma {:induction false} FailuresInOrder(repo: Repo, a: seq<nat>, b: seq<nat>, rules: Rules, allow: Allowlist.Table)
    requires Valid(repo) && Below(a, |repo|) && Below(b, |repo|)
    ensures Failures(repo, a + b, rules, allow) == Failures(repo, a, rules, allow) + Failures(repo, b, rules, allow)
    decreases |b|
  {
    hide CommitHits, Valid;
    if b == [] {
      assert a + b == a;
    } else {
      var n := |b| - 1;
      assert (a + b)[..|a| + n] == a + b[..n];
      FailuresInOrder(repo, a, b[..n], rules, allow);
    }
  }

  /** The push's slug comparison: no row under this very key, and both ends have a slug function, with another hash. */
  lemma SlugDriftExactly(repo: Repo, from: nat, to: nat, allow: Allowlist.Table)
    requires from < |repo| && to < |repo|
    ensures SlugDrift(repo, from, to, allow)
       <==> && Allowlist.Str("src/hhemt/scenario.py::compute_event_id_slug") !in allow
            && exists x, y :: repo[from].slug == Some(x) && repo[to].slug == Some(y) && x != y
  {
  }

  /** The rules load and the walk over the range reports no file. */
  ghost predicate WalkClean(repo: Repo, from: nat, to: nat, remotes: seq<nat>, rules: Rules)
    requires Valid(repo) && from < |repo| && to < |repo| && Below(remotes, |repo|)
  {
    && Allowlist.Load(rules.rows).Ok?
    && Failures(repo, RevList(repo, from, to, remotes), rules, Allowlist.Load(rules.rows).value) == []
  }

  /** Under a clean walk, one link of a chain without bumps keeps a path's entry or lands on its signed content. */
  lemma CleanLink(repo: Repo, chain: seq<nat>, remotes: seq<nat>, rules: Rules, path: string, i: nat)
    requires Valid(repo) && FirstParentChain(repo, chain) && Below(remotes, |repo|) && 0 < i < |chain|
    requires chain[i] !in ReachAny(repo, remotes, |repo|)
    requires repo[chain[i]].version <= repo[chain[i - 1]].version
    requires WalkClean(repo, chain[0], chain[|chain| - 1], remotes, rules)
    requires Governed(rules, path) && !Moved(repo[chain[i]].diff, path)
    ensures || Lookup(repo[chain[i]].tree, path) == Lookup(repo[chain[i - 1]].tree, path)
            || Signed(Allowlist.Load(rules.rows).value, repo[chain[i]].tree, path)
  {
    var c := chain[i];
    ChainIsGraded(repo, chain, remotes, i);
    assert FirstParentEdge(repo, chain[i - 1], c);
    if Lookup(repo[c].tree, path) != Lookup(repo[chain[i - 1]].tree, path) {
      assert Faithful(repo[chain[i - 1]].tree, repo[c].tree, repo[c].diff);
      assert MustSign(repo, c, rules, path);
      WalkPasses(repo, RevList(repo, chain[0], chain[|chain| - 1], remotes), rules, Allowlist.Load(rules.rows).value);
      assert Answered(repo, c, rules, Allowlist.Load(rules.rows).value);
    }
  }

  /**
   Whole-history safety of the walk. On a pushed first-parent chain that raises no version and
   passes, a governed path that git never reports as moved keeps its content throughout, or
   changes once, to the content its own last setter row signed. It is never deleted.
   */
  lemma PassingChainChangesOnce(repo: Repo, chain: seq<nat>, remotes: seq<nat>, rules: Rules, path: string)
    requires Valid(repo) && FirstParentChain(repo, chain) && Below(remotes, |repo|)
    requires forall i | 0 < i < |chain| ::
               && chain[i] !in ReachAny(repo, remotes, |repo|)
               && repo[chain[i]].version <= repo[chain[i - 1]].version
               && !Moved(repo[chain[i]].diff, path)
    requires WalkClean(repo, chain[0], chain[|chain| - 1], remotes, rules)
    requires Governed(rules, path)
    ensures Allowlist.AllLegal(rules.rows)
    ensures || Constant(repo, chain, path)
            || exists k: nat, sig :: SettlesAt(repo, chain, path, k, sig)
                                     && Allowlist.ResolvesTo(rules.rows, Allowlist.Str(path), sig)
    ensures path in repo[chain[0]].tree ==> forall i | 0 <= i < |chain| :: path in repo[chain[i]].tree
  {
    var allow := Allowlist.Load(rules.rows).value;
    var key := Allowlist.Str(path);
    Allowlist.LoadCorrect(rules.rows);
    forall i | 0 < i < |chain|
      ensures || Lookup(repo[chain[i]].tree, path) == Lookup(repo[chain[i - 1]].tree, path)
              || Signed(allow, repo[chain[i]].tree, path)
    {
      CleanLink(repo, chain, remotes, rules, path, i);
    }
    SignedStepsSettle(repo, chain, path, allow);
    if !Constant(repo, chain, path) {
      var sig := allow[key].signature.value;
      assert Allowlist.ResolvesTo(rules.rows, key, sig);
    }
    if path in repo[chain[0]].tree { NeverDeleted(repo, chain, path); }
  }

  /** Steps that keep the entry or land on the signed content add up to at most one change. */
  lemma {:induction false} SignedStepsSettle(repo: Repo, chain: seq<nat>, path: string, allow: Allowlist.Table)
    requires chain != [] && Below(chain, |repo|)
    requires forall i | 0 < i < |chain| ::
               || Lookup(repo[chain[i]].tree, path) == Lookup(repo[chain[i - 1]].tree, path)
               || Signed(allow, repo[chain[i]].tree, path)
    ensures || Constant(repo, chain, path)
            || (Allowlist.Str(path) in allow && allow[Allowlist.Str(path)].signature.Some?
                && exists k: nat :: SettlesAt(repo, chain, path, k, allow[Allowlist.Str(path)].signature.value))
    decreases |chain|
  {
    var n := |chain| - 1;
    if n > 0 {
      var front, c := chain[..n], chain[n];
      assert chain == front + [c] && forall i | 0 <= i < n :: front[i] == chain[i];
      SignedStepsSettle(repo, front, path, allow);
      hide Constant, SettlesAt;
      if Signed(allow, repo[c].tree, path) {
        var sig := allow[Allowlist.Str(path)].signature.value;
        if Constant(repo, front, path) {
          SettlesNow(repo, front, c, path, sig);
          assert SettlesAt(repo, chain, path, n, sig);
        } else {
          var k: nat :| SettlesAt(repo, front, path, k, sig);
          StaysSettled(repo, front, c, path, k, sig);
        }
      } else {
        if k: nat :| Allowlist.Str(path) in allow && allow[Allowlist.Str(path)].signature.Some?
                     && SettlesAt(repo, front, path, k, allow[Allowlist.Str(path)].signature.value) {
          SettledLast(repo, front, path, k, allow[Allowlist.Str(path)].signature.value);
        }
        StaysConstant(repo, front, c, path);
      }
    }
  }

  lemma StaysConstant(repo: Repo, front: seq<nat>, c: nat, path: string)
    requires front != [] && Below(front, |repo|) && c < |repo| && Constant(repo, front, path)
    requires Content(repo[c].tree, path) == Content(repo[front[|front| - 1]].tree, path)
    ensures Constant(repo, front + [c], path)
  {
    hide Content;
  }

  lemma SettlesNow(repo: Repo, front: seq<nat>, c: nat, path: string, sig: string)
    requires front != [] && Below(front, |repo|) && c < |repo| && Constant(repo, front, path)
    requires Content(repo[c].tree, path) == Some(sig)
    ensures SettlesAt(repo, front + [c], path, |front|, sig)
  {
    hide Content;
  }

  lemma StaysSettled(repo: Repo, front: seq<nat>, c: nat, path: string, k: nat, sig: string)
    requires Below(front, |repo|) && c < |repo| && SettlesAt(repo, front, path, k, sig)
    requires Content(repo[c].tree, path) == Some(sig)
    ensures SettlesAt(repo, front + [c], path, k, sig)
  {
    hide Content;
  }

  lemma SettledLast(repo: Repo, front: seq<nat>, path: string, k: nat, sig: string)
    requires Below(front, |repo|) && SettlesAt(repo, front, path, k, sig)
    ensures Content(repo[front[|front| - 1]].tree, path) == Some(sig)
  {
  }

  /** A path that is constant or settles is never deleted. */
  lemma NeverDeleted(repo: Repo, chain: seq<nat>, path: string)
    requires chain != [] && Below(chain, |repo|) && path in repo[chain[0]].tree
    requires Constant(repo, chain, path) || exists k: nat, sig :: SettlesAt(repo, chain, path, k, sig)
    ensures forall i | 0 <= i < |chain| :: path in repo[chain[i]].tree
  {
  }

  /** Each push only adds history to the branch. */
  ghost predicate FastForwards(repo: Repo, tips: seq<nat>)
    requires Valid(repo) && Below(tips, |repo|)
  {
    forall j, k | 0 <= j && k == j + 1 && k < |tips| :: tips[j] in Reach(repo, tips[k])
  }

  lemma {:induction false} TipsGrow(repo: Repo, tips: seq<nat>, i: nat, j: nat)
    requires Valid(repo) && Below(tips, |repo|) && i <= j < |tips|
    requires FastForwards(repo, tips)
    ensures Reach(repo, tips[i]) <= Reach(repo, tips[j])
    decreases j - i
  {
    if i < j {
      TipsGrow(repo, tips, i, j - 1);
      ReachTransitive(repo, tips[j], tips[j - 1]);
    }
  }

  /** The `k`-th push, from one tip to the next, is the one that adds the commit to the branch. */
  ghost predicate BroughtByPush(repo: Repo, tips: seq<nat>, k: nat, c: nat)
    requires Valid(repo) && Below(tips, |repo|)
  {
    0 < k < |tips| && c in Reach(repo, tips[k]) && c !in Reach(repo, tips[k - 1])
  }

  /** Tracking refs per push: what the named remote already has when it is made; none when no remote is named. */
  ghost predicate Tracked(repo: Repo, tips: seq<nat>, remotes: seq<seq<nat>>) {
    |remotes| == |tips| && forall k | 0 <= k < |remotes| :: Below(remotes[k], |repo|)
  }

  ghost predicate GradedByPush(repo: Repo, tips: seq<nat>, remotes: seq<seq<nat>>, k: nat, c: nat)
    requires Valid(repo) && Below(tips, |repo|) && Tracked(repo, tips, remotes)
  {
    0 < k < |tips| && c in RevList(repo, tips[k - 1], tips[k], remotes[k])
  }

  lemma GradedIfNew(repo: Repo, tips: seq<nat>, remotes: seq<seq<nat>>, k: nat, c: nat)
    requires Valid(repo) && Below(tips, |repo|) && Tracked(repo, tips, remotes) && k < |tips|
    ensures GradedByPush(repo, tips, remotes, k, c)
       <==> BroughtByPush(repo, tips, k, c) && c !in ReachAny(repo, remotes[k], |repo|)
  {
  }

  /**
   Of consecutive fast-forward pushes exactly one adds a given commit to the branch, and the commit
   is graded by that push and by no other, unless the remote had it already, when none grades it.
   */
  lemma PushesGradeOnce(repo: Repo, tips: seq<nat>, remotes: seq<seq<nat>>, c: nat) returns (k: nat)
    requires Valid(repo) && tips != [] && Below(tips, |repo|) && Tracked(repo, tips, remotes)
    requires FastForwards(repo, tips)
    requires c in Reach(repo, tips[|tips| - 1]) && c !in Reach(repo, tips[0])
    ensures BroughtByPush(repo, tips, k, c) && forall j: nat | BroughtByPush(repo, tips, j, c) :: j == k
    ensures forall j: nat :: GradedByPush(repo, tips, remotes, j, c) <==> j == k && c !in ReachAny(repo, remotes[k], |repo|)
  {
    k := FirstHolding(repo, tips, c);
    hide Reach, ReachAny, RevList, Valid, FastForwards, Tracked, GradedByPush;
    forall j: nat | BroughtByPush(repo, tips, j, c) ensures j == k {
      NotBroughtTwice(repo, tips, c, if j < k then j else k, if j < k then k else j);
    }
    hide BroughtByPush;
    forall j: nat
      ensures GradedByPush(repo, tips, remotes, j, c) <==> j == k && c !in ReachAny(repo, remotes[k], |repo|)
    {
      GradedIfOnly(repo, tips, remotes, k, c, j);
    }
  }

  /** A push grades a commit only if it is the one that adds it, and then unless the remote had it. */
  lemma GradedIfOnly(repo: Repo, tips: seq<nat>, remotes: seq<seq<nat>>, k: nat, c: nat, j: nat)
    requires Valid(repo) && Below(tips, |repo|) && Tracked(repo, tips, remotes)
    requires k < |tips| && BroughtByPush(repo, tips, k, c) && (BroughtByPush(repo, tips, j, c) ==> j == k)
    ensures |remotes| == |tips| && Below(remotes[k], |repo|)
    ensures GradedByPush(repo, tips, remotes, j, c) <==> j == k && c !in ReachAny(repo, remotes[k], |repo|)
  {
    hide Reach, ReachAny, RevList, Valid;
    if j < |tips| { GradedIfNew(repo, tips, remotes, j, c); }
  }

  lemma NotBroughtTwice(repo: Repo, tips: seq<nat>, c: nat, j: nat, k: nat)
    requires Valid(repo) && Below(tips, |repo|) && FastForwards(repo, tips) && j <= k
    requires BroughtByPush(repo, tips, j, c) && BroughtByPush(repo, tips, k, c)
    ensures j == k
  {
    hide Reach, Valid, FastForwards;
    if j < k { TipsGrow(repo, tips, j, k - 1); }
  }

  /** Every push was clean under the rules that held when it was made. */
  ghost predicate EveryPushClean(repo: Repo, tips: seq<nat>, remotes: seq<seq<nat>>, rules: seq<Rules>)
    requires Valid(repo) && Below(tips, |repo|) && Tracked(repo, tips, remotes) && |rules| == |tips|
  {
    forall j, k | 0 <= j && k == j + 1 && k < |tips| :: WalkClean(repo, tips[j], tips[k], remotes[k], rules[k])
  }

  /**
   A whole history of pushes: when each was clean under its own rules, every commit the branch has
   gained answers for its changes under the rules of the push that brought it, unless the remote had
   the commit already.
   */
  lemma BranchIsAnswered(repo: Repo, tips: seq<nat>, remotes: seq<seq<nat>>, rules: seq<Rules>, c: nat)
    requires Valid(repo) && tips != [] && Below(tips, |repo|) && Tracked(repo, tips, remotes) && |rules| == |tips|
    requires FastForwards(repo, tips) && EveryPushClean(repo, tips, remotes, rules)
    requires c in Reach(repo, tips[|tips| - 1]) && c !in Reach(repo, tips[0])
    ensures exists k: nat :: BroughtByPush(repo, tips, k, c) && AnsweredUnder(repo, remotes[k], rules[k], c)
  {
    var k := PushesGradeOnce(repo, tips, remotes, c);
    hide Reach, FastForwards, ReachAny, RevList, Valid;
    CleanPushAnswers(repo, tips, remotes, rules, k, c);
  }

  /** The rules load, and unless the remote had the commit it answers for its changes under them. */
  ghost predicate AnsweredUnder(repo: Repo, remotes: seq<nat>, rules: Rules, c: nat)
    requires Valid(repo) && Below(remotes, |repo|) && c < |repo|
  {
    && Allowlist.Load(rules.rows).Ok?
    && (c !in ReachAny(repo, remotes, |repo|) ==> Answered(repo, c, rules, Allowlist.Load(rules.rows).value))
  }

  lemma CleanPushAnswers(repo: Repo, tips: seq<nat>, remotes: seq<seq<nat>>, rules: seq<Rules>, k: nat, c: nat)
    requires Valid(repo) && Below(tips, |repo|) && Tracked(repo, tips, remotes) && |rules| == |tips|
    requires EveryPushClean(repo, tips, remotes, rules) && BroughtByPush(repo, tips, k, c)
    ensures c < |repo| && AnsweredUnder(repo, remotes[k], rules[k], c)
  {
    var j := k - 1;
    assert WalkClean(repo, tips[j], tips[k], remotes[k], rules[k]);
    GradedIfNew(repo, tips, remotes, k, c);
    hide Answered, Valid, Reach, EveryPushClean;
    WalkPasses(repo, RevList(repo, tips[j], tips[k], remotes[k]), rules[k], Allowlist.Load(rules[k].rows).value);
  }

  lemma FirstHolding(repo: Repo, tips: seq<nat>, c: nat) returns (k: nat)
    requires Valid(repo) && tips != [] && Below(tips, |repo|)
    requires c in Reach(repo, tips[|tips| - 1]) && c !in Reach(repo, tips[0])
    ensures 0 < k < |tips| && c in Reach(repo, tips[k]) && c !in Reach(repo, tips[k - 1])
  {
    k := |tips| - 1;
    while c in Reach(repo, tips[k - 1])
      invariant 0 < k < |tips| && c in Reach(repo, tips[k])
      decreases k
    {
      k := k - 1;
    }
  }

  // ----- Check A

  datatype VerdictA = Unchanged | UndoesBump | Jumped | NoModule | NoFromFixture | NoToFixture | Shipped {
    predicate Passes() { Unchanged? || Shipped? }
  }

  /** The highest version among `base` and the merge's parents; just `base` when there is no merge. */
  function HighestBase(repo: Repo, base: nat, mergeParents: seq<nat>): (v: nat)
    requires Below(mergeParents, |repo|)
    ensures v >= base && forall p | p in mergeParents :: v >= repo[p].version
    ensures v == base || exists p | p in mergeParents :: v == repo[p].version
  {
    if mergeParents == [] then base
    else
      var rest := HighestBase(repo, base, mergeParents[1..]);
      if repo[mergeParents[0]].version > rest then repo[mergeParents[0]].version else rest
  }

  /** The version-step rule, in the order of its tests. */
  function VersionStep(head: nat, base: nat, merging: bool, modules: set<nat>, fixtures: set<nat>): VerdictA {
    if head == base then Unchanged
    else if merging && head < base then UndoesBump
    else if head != base + 1 then Jumped
    else if head !in modules then NoModule
    else if base !in fixtures then NoFromFixture
    else if head !in fixtures then NoToFixture
    else Shipped
  }

  /** Every parent of a merge commit; none for a commit with fewer than two. */
  function MergeParents(repo: Repo, c: nat): seq<nat>
    requires c < |repo|
  {
    if |repo[c].parents| >= 2 then repo[c].parents else []
  }

  /** The base Check A compares a commit with when it starts from its first parent. */
  function TopVersion(repo: Repo, c: nat): nat
    requires Valid(repo) && c < |repo| && repo[c].parents != []
  {
    HighestBase(repo, FirstParentVersion(repo, c), MergeParents(repo, c))
  }

  /** Check A at the pushing venue, grading commit `c` against a base version. */
  function CheckA(repo: Repo, c: nat, base: nat): VerdictA
    requires Valid(repo) && c < |repo|
  {
    var merge := MergeParents(repo, c);
    VersionStep(repo[c].version, HighestBase(repo, base, merge), merge != [], repo[c].modules, repo[c].fixtures)
  }

  /** The commit, if it has a parent, passes Check A against its first parent. */
  predicate StepPasses(repo: Repo, c: nat)
    requires Valid(repo) && c < |repo|
  {
    repo[c].parents != [] ==> CheckA(repo, c, FirstParentVersion(repo, c)).Passes()
  }

  /** Every commit does. */
  ghost predicate GatedByA(repo: Repo) {
    Valid(repo) && forall c | 0 <= c < |repo| :: StepPasses(repo, c)
  }

  /** The commit raises the version above all its parents and carries the migration and both fixtures. */
  ghost predicate Introduces(repo: Repo, c: nat, v: nat)
    requires Valid(repo) && c < |repo|
  {
    && repo[c].version == v
    && repo[c].parents != []
    && (forall p | p in repo[c].parents :: repo[p].version < v)
    && v in repo[c].modules && v in repo[c].fixtures && v - 1 in repo[c].fixtures
  }

  /** Along every edge to a passing commit the version stays or grows; over the highest parent it grows by at most one, and then the migration is there. */
  lemma GatedStep(repo: Repo, c: nat)
    requires Valid(repo) && c < |repo| && repo[c].parents != [] && StepPasses(repo, c)
    ensures forall p | p in repo[c].parents :: repo[p].version <= repo[c].version
    ensures || (exists p | p in repo[c].parents :: repo[p].version == repo[c].version)
            || ((exists p | p in repo[c].parents :: repo[p].version + 1 == repo[c].version)
                && Introduces(repo, c, repo[c].version))
  {
    TopParent(repo, c);
    var top := TopVersion(repo, c);
    StepVerdict(repo[c].version, top, MergeParents(repo, c) != [], repo[c].modules, repo[c].fixtures);
    hide Valid, VersionStep, TopVersion;
  }

  /** What the rule lets through: the base itself, or a shipped step of one. */
  lemma StepVerdict(head: nat, base: nat, merging: bool, modules: set<nat>, fixtures: set<nat>)
    ensures VersionStep(head, base, merging, modules, fixtures).Passes()
       <==> head == base || (head == base + 1 && head in modules && base in fixtures && head in fixtures)
  {
  }

  /** For any commit the rule's base is the highest version among its parents. */
  lemma TopParent(repo: Repo, c: nat)
    requires Valid(repo) && c < |repo| && repo[c].parents != []
    ensures var top := TopVersion(repo, c);
            && (forall p | p in repo[c].parents :: repo[p].version <= top)
            && exists p | p in repo[c].parents :: repo[p].version == top
  {
    var parents := repo[c].parents;
    var first := parents[0];
    assert first in parents;
    if |parents| == 1 {
      assert parents == [first];
      assert HighestBase(repo, repo[first].version, []) == repo[first].version;
    } else {
      var top := HighestBase(repo, repo[first].version, parents);
      if top == repo[first].version {
        assert exists p | p in parents :: repo[p].version == top;
      }
    }
  }

  lemma {:induction false} VersionsGrow(repo: Repo, c: nat)
    requires GatedByA(repo) && c < |repo|
    ensures forall a | a in Reach(repo, c) :: repo[a].version <= repo[c].version
    decreases c
  {
    forall a | a in Reach(repo, c) ensures repo[a].version <= repo[c].version {
      if a != c {
        var p := ViaParent(repo, c, a);
        VersionsGrow(repo, p);
        GatedStep(repo, c);
      }
    }
  }

  /**
   No version is skipped. In a gated graph every version up to a commit's own that lies above
   all the roots it grew from was introduced, migration and fixtures included, by some
   ancestor (or by the commit itself).
   */
  lemma {:induction false} EveryVersionWasIntroduced(repo: Repo, c: nat, v: nat)
    requires GatedByA(repo) && c < |repo| && v <= repo[c].version
    requires forall a | a in Reach(repo, c) && repo[a].parents == [] :: repo[a].version < v
    ensures exists a | a in Reach(repo, c) :: Introduces(repo, a, v)
    decreases c
  {
    var parents := repo[c].parents;
    assert c in Reach(repo, c);
    if parents != [] {
      GatedStep(repo, c);
      if v == repo[c].version && Introduces(repo, c, v) {
      } else {
        var p :| p in parents && v <= repo[p].version;
        ParentWithin(repo, c, p);
        EveryVersionWasIntroduced(repo, p, v);
      }
    }
  }

  /** Check A's verdicts, each by its own condition. `top` is the highest version among the base and, for a commit with several parents, those. */
  lemma CheckAExactly(repo: Repo, c: nat, base: nat, top: nat)
    requires Valid(repo) && c < |repo|
    requires top >= base && (|repo[c].parents| >= 2 ==> forall p | p in repo[c].parents :: repo[p].version <= top)
    requires top == base || (|repo[c].parents| >= 2 && exists p | p in repo[c].parents :: repo[p].version == top)
    ensures var commit, r := repo[c], CheckA(repo, c, base);
            && (r == Unchanged <==> commit.version == top)
            && (r == UndoesBump <==> |commit.parents| >= 2 && commit.version < top)
            && (r == Jumped <==> commit.version > top + 1 || (|commit.parents| < 2 && commit.version < top))
            && (commit.version == top + 1 ==>
                  && (r == NoModule <==> top + 1 !in commit.modules)
                  && (r == NoFromFixture <==> top + 1 in commit.modules && top !in commit.fixtures)
                  && (r == NoToFixture <==> top + 1 in commit.modules && top in commit.fixtures && top + 1 !in commit.fixtures)
                  && (r == Shipped <==> top + 1 in commit.modules && top in commit.fixtures && top + 1 in commit.fixtures))
            && (r.Passes() <==> r == Unchanged || r == Shipped)
  {
    assert HighestBase(repo, base, if |repo[c].parents| >= 2 then repo[c].parents else []) == top;
  }

  // ----- the two checks together

  /** The merge takes its version over from a parent other than the first. */
  ghost predicate InheritsVersion(repo: Repo, c: nat)
    requires Valid(repo) && c < |repo|
  {
    && |repo[c].parents| >= 2
    && repo[c].version > FirstParentVersion(repo, c)
    && exists p | p in repo[c].parents :: repo[p].version == repo[c].version
  }

  /** When Check B skips a commit for its bump, the commit ships the migration itself exactly when it outgrows every parent. */
  lemma SkippedBumpShips(repo: Repo, c: nat)
    requires Valid(repo) && c < |repo| && repo[c].parents != [] && StepPasses(repo, c)
    requires repo[c].version > FirstParentVersion(repo, c)
    ensures Introduces(repo, c, repo[c].version) <==> forall p | p in repo[c].parents :: repo[p].version < repo[c].version
    ensures Introduces(repo, c, repo[c].version) <==> !InheritsVersion(repo, c)
  {
    GatedStep(repo, c);
    var parents := repo[c].parents;
    if !Introduces(repo, c, repo[c].version) {
      var p :| p in parents && repo[p].version == repo[c].version;
      assert parents[0] != p;
    }
  }

  /**
   What the two checks give together. A listed change to a governed path in a graded commit that
   is not signed there ships with its migration there exactly when the commit is no merge that took
   its version from another parent. In that case the migration was introduced on a commit the
   merge brings in and its first parent does not have, unless that version came from a root.
   */
  lemma GradedChangeIsAnswered(repo: Repo, commits: seq<nat>, rules: Rules, allow: Allowlist.Table, c: nat, path: string)
    requires GatedByA(repo) && Below(commits, |repo|)
    requires Failures(repo, commits, rules, allow) == []
    requires c in commits && repo[c].parents != [] && Listed(repo[c].diff, path) && Governed(rules, path)
    ensures Signed(allow, repo[c].tree, path) || Introduces(repo, c, repo[c].version)
       <==> Signed(allow, repo[c].tree, path) || !InheritsVersion(repo, c)
    ensures InheritsVersion(repo, c)
            && (forall a | a in Reach(repo, c) && repo[a].parents == [] :: repo[a].version < repo[c].version)
            ==> exists a | a in Reach(repo, c) - Reach(repo, repo[c].parents[0]) :: Introduces(repo, a, repo[c].version)
  {
    WalkPasses(repo, commits, rules, allow);
    if repo[c].version > FirstParentVersion(repo, c) {
      SkippedBumpShips(repo, c);
    } else {
      assert MustSign(repo, c, rules, path) && Answered(repo, c, rules, allow);
    }
    if InheritsVersion(repo, c)
       && forall a | a in Reach(repo, c) && repo[a].parents == [] :: repo[a].version < repo[c].version {
      EveryVersionWasIntroduced(repo, c, repo[c].version);
      VersionsGrow(repo, repo[c].parents[0]);
    }
  }

  // ----- why the third case is there: an unsigned change in a merge that inherits its version

  function Plain(parents: seq<nat>, version: nat, tree: Tree, diff: seq<DiffLine>, shipped: set<nat>): Commit {
    Commit(parents, version, tree, diff, shipped, shipped, None)
  }

  const GOVERNED_PATH := "src/hhemt/log.py"
  const BEFORE: Tree := map[GOVERNED_PATH := Blob(0, "a")]
  const AFTER: Tree := map[GOVERNED_PATH := Blob(0, "b")]

  /** A root, a branch that bumps 1 to 2 properly, a sibling, and a merge into the sibling that also edits a governed file. */
  const RIDING: Repo := [
    Plain([], 1, BEFORE, [], {1}),
    Plain([0], 2, BEFORE, [], {1, 2}),
    Plain([0], 1, BEFORE, [], {1}),
    Plain([2, 1], 2, AFTER, [DiffLine("M", GOVERNED_PATH, GOVERNED_PATH)], {1, 2})
  ]

  lemma RidingValid()
    ensures Valid(RIDING)
  {
    var edit := DiffLine("M", GOVERNED_PATH, GOVERNED_PATH);
    assert edit in RIDING[3].diff && !IsMove(edit);
    assert Listed(RIDING[3].diff, GOVERNED_PATH);
    assert AFTER == map[GOVERNED_PATH := Blob(0, "b")] && BEFORE[GOVERNED_PATH] != AFTER[GOVERNED_PATH];
    forall path | Lookup(BEFORE, path) != Lookup(AFTER, path) ensures path == GOVERNED_PATH {}
    assert Faithful(BEFORE, AFTER, RIDING[3].diff);
    assert Faithful(BEFORE, BEFORE, []);
  }

  lemma RidingGated()
    ensures GatedByA(RIDING)
  {
    RidingValid();
    assert CheckA(RIDING, 1, 1) == Shipped;
    assert CheckA(RIDING, 2, 1) == Unchanged;
    assert HighestBase(RIDING, 1, [2, 1]) == 2 by {
      assert RIDING[1].version == 2;
    }
    assert CheckA(RIDING, 3, 1) == Unchanged;
  }

  /** The push hooks accept the merge, and Check A every commit of it, although its own change to a governed path is neither signed nor migrated. */
  lemma UnsignedChangeRidesMerge()
    ensures GatedByA(RIDING)
    ensures var rules := Rules({GOVERNED_PATH}, [], []);
            && PushHooksPass(RIDING, 0, 3, rules) && 3 in RevList(RIDING, 0, 3, [])
            && Listed(RIDING[3].diff, GOVERNED_PATH) && Governed(rules, GOVERNED_PATH)
            && Allowlist.Load(rules.rows) == Ok(map[]) && !Signed(map[], RIDING[3].tree, GOVERNED_PATH)
            && !Introduces(RIDING, 3, 2)
  {
    RidingGated();
    RidingPasses();
    RidingEdit();
  }

  lemma RidingEdit()
    requires Valid(RIDING)
    ensures Listed(RIDING[3].diff, GOVERNED_PATH) && !Introduces(RIDING, 3, 2)
    ensures 3 in RevList(RIDING, 0, 3, [])
  {
    NewTipIsGraded(RIDING, 0, 3);
    hide Valid, RevList;
    var edit := DiffLine("M", GOVERNED_PATH, GOVERNED_PATH);
    assert edit in RIDING[3].diff && !IsMove(edit);
    assert RIDING[3].parents[1] == 1 && RIDING[1].version == 2;
  }

  lemma RidingPasses()
    requires GatedByA(RIDING)
    ensures PushHooksPass(RIDING, 0, 3, Rules({GOVERNED_PATH}, [], []))
    ensures Allowlist.Load(Rules({GOVERNED_PATH}, [], []).rows) == Ok(map[])
  {
    RidingWalk();
    assert Allowlist.Load([]) == Ok(map[]);
    assert |RIDING| == 4 && Rules({GOVERNED_PATH}, [], []).rows == [];
    hide RevList, Failures, StepPasses, Valid, RIDING, GOVERNED_PATH, Allowlist.Load;
  }

  lemma RidingWalk()
    requires Valid(RIDING)
    ensures Failures(RIDING, RevList(RIDING, 0, 3, []), Rules({GOVERNED_PATH}, [], []), map[]) == []
  {
    var rules := Rules({GOVERNED_PATH}, [], []);
    var commits := RevList(RIDING, 0, 3, []);
    WalkPasses(RIDING, commits, rules, map[]);
    forall c | c in commits ensures Answered(RIDING, c, rules, map[]) {
      NeverItself(RIDING, 0, 3, c);
      hide RevList, Reach, Valid, Failures, Answered, BEFORE, AFTER, GOVERNED_PATH;
      assert c == 1 || c == 2 || c == 3;
      QuietCommit(RIDING, c, rules, map[]);
    }
  }

  lemma NewTipIsGraded(repo: Repo, from: nat, to: nat)
    requires Valid(repo) && from < to < |repo|
    ensures to in RevList(repo, from, to, [])
  {
    RevListExactly(repo, from, to, []);
    hide Valid, RevList;
  }

  // ----- what a push sees of the version rule

  /** The two hooks of a push from `from` to `to`: Check A on the tip against its first parent, Check B's walk on the range. */
  ghost predicate PushHooksPass(repo: Repo, from: nat, to: nat, rules: Rules)
    requires Valid(repo) && from < |repo| && to < |repo|
  {
    && StepPasses(repo, to)
    && WalkClean(repo, from, to, [], rules)
  }

  /** The commit raises the highest of its parents' versions by one and carries the migration and both fixtures. */
  ghost predicate ShipsItsBump(repo: Repo, c: nat)
    requires Valid(repo) && c < |repo|
  {
    Introduces(repo, c, repo[c].version) && exists p | p in repo[c].parents :: repo[p].version + 1 == repo[c].version
  }

  /** A commit that outgrows its first parent ships its bump exactly when it passes Check A and did not take its version from another parent. */
  lemma ShippedExactly(repo: Repo, c: nat)
    requires Valid(repo) && c < |repo| && repo[c].parents != [] && repo[c].version > FirstParentVersion(repo, c)
    ensures ShipsItsBump(repo, c) <==> StepPasses(repo, c) && !InheritsVersion(repo, c)
  {
    TopParent(repo, c);
    if StepPasses(repo, c) {
      SkippedBumpShips(repo, c);
      GatedStep(repo, c);
    }
    if ShipsItsBump(repo, c) {
      ShippingPasses(repo, c);
    }
  }

  lemma ShippingPasses(repo: Repo, c: nat)
    requires Valid(repo) && c < |repo| && ShipsItsBump(repo, c)
    ensures StepPasses(repo, c) && !InheritsVersion(repo, c)
  {
    TopParent(repo, c);
    var top := TopVersion(repo, c);
    StepVerdict(repo[c].version, top, MergeParents(repo, c) != [], repo[c].modules, repo[c].fixtures);
    hide Valid, VersionStep, TopVersion;
    var p :| p in repo[c].parents && repo[p].version + 1 == repo[c].version;
    var q :| q in repo[c].parents && repo[q].version == top;
    assert repo[c].version == top + 1;
  }

  /**
   What a clean walk of a push says of one listed change to a governed path, wherever in the push
   its commit stands: it is signed, or shipped with its own bump, exactly when it is signed or its
   commit passes Check A without taking its version from another parent. The walk itself asks no
   more of a bump than that there is one.
   */
  lemma PushCoversExactly(repo: Repo, from: nat, to: nat, remotes: seq<nat>, rules: Rules, c: nat, path: string)
    requires Valid(repo) && from < |repo| && to < |repo| && Below(remotes, |repo|) && WalkClean(repo, from, to, remotes, rules)
    requires c in RevList(repo, from, to, remotes) && repo[c].parents != []
    requires Listed(repo[c].diff, path) && Governed(rules, path)
    ensures var signed := Signed(Allowlist.Load(rules.rows).value, repo[c].tree, path);
            signed || ShipsItsBump(repo, c) <==> signed || (StepPasses(repo, c) && !InheritsVersion(repo, c))
  {
    WalkPasses(repo, RevList(repo, from, to, remotes), rules, Allowlist.Load(rules.rows).value);
    hide Governed, RevList, ShipsItsBump, StepPasses, InheritsVersion, Signed, Listed;
    if repo[c].version > FirstParentVersion(repo, c) {
      ShippedExactly(repo, c);
    } else {
      assert MustSign(repo, c, rules, path) && Answered(repo, c, rules, Allowlist.Load(rules.rows).value);
    }
  }

  /** On the tip of a push, the one commit Check A grades there, only a merge that inherits its version is left uncovered. */
  lemma TipIsCovered(repo: Repo, from: nat, to: nat, rules: Rules, path: string)
    requires Valid(repo) && from < |repo| && to < |repo| && PushHooksPass(repo, from, to, rules)
    requires to in RevList(repo, from, to, []) && repo[to].parents != []
    requires Listed(repo[to].diff, path) && Governed(rules, path)
    ensures var signed := Signed(Allowlist.Load(rules.rows).value, repo[to].tree, path);
            signed || ShipsItsBump(repo, to) <==> signed || !InheritsVersion(repo, to)
  {
    hide Governed, RevList, ShipsItsBump, StepPasses, InheritsVersion, Signed, Listed, WalkClean;
    PushCoversExactly(repo, from, to, [], rules, to, path);
  }

  /** A root, a commit that raises the version with no migration while it edits a governed file, and a harmless commit on top. */
  const BURIED: Repo := [
    Plain([], 1, BEFORE, [], {1}),
    Plain([0], 2, AFTER, [DiffLine("M", GOVERNED_PATH, GOVERNED_PATH)], {1}),
    Plain([1], 2, AFTER, [], {1})
  ]

  /**
   The walk leaves a bump to Check A, and Check A grades the tip alone: pushed under one more
   commit, a bump without its migration passes both hooks. Only `GatedByA`, Check A on every
   commit, excludes it.
   */
  lemma BuriedBumpIsPushed()
    ensures Valid(BURIED)
    ensures PushHooksPass(BURIED, 0, 2, Rules({GOVERNED_PATH}, [], []))
    ensures CheckA(BURIED, 1, FirstParentVersion(BURIED, 1)) == NoModule && !GatedByA(BURIED)
    ensures !PushHooksPass(BURIED, 0, 1, Rules({GOVERNED_PATH}, [], []))
  {
    hide WalkClean, CheckA, Valid, BURIED, GOVERNED_PATH, GatedByA, PushHooksPass, FirstParentVersion, StepPasses;
    BuriedChecks();
    BuriedPasses();
    FailedStep(BURIED, 0, 1, Rules({GOVERNED_PATH}, [], []));
  }

  /** A commit that fails Check A is not in a gated graph, and a push that ends in it is refused. */
  lemma FailedStep(repo: Repo, from: nat, c: nat, rules: Rules)
    requires Valid(repo) && from < |repo| && c < |repo| && repo[c].parents != []
    requires !CheckA(repo, c, FirstParentVersion(repo, c)).Passes()
    ensures !GatedByA(repo) && !PushHooksPass(repo, from, c, rules)
  {
    hide CheckA, WalkClean, Valid;
    assert !StepPasses(repo, c);
  }

  lemma BuriedPasses()
    requires Valid(BURIED) && CheckA(BURIED, 2, FirstParentVersion(BURIED, 2)) == Unchanged
    ensures PushHooksPass(BURIED, 0, 2, Rules({GOVERNED_PATH}, [], []))
  {
    BuriedWalk();
    assert Allowlist.Load([]) == Ok(map[]);
    hide RevList, Failures, CheckA, Valid, BURIED, GOVERNED_PATH;
    assert Rules({GOVERNED_PATH}, [], []).rows == [];
  }

  lemma BuriedChecks()
    ensures Valid(BURIED) && |BURIED| == 3 && BURIED[1].parents == [0] && BURIED[2].parents == [1]
    ensures CheckA(BURIED, 1, FirstParentVersion(BURIED, 1)) == NoModule
    ensures CheckA(BURIED, 2, FirstParentVersion(BURIED, 2)) == Unchanged
  {
    BuriedValid();
    hide Valid, Faithful, BEFORE, AFTER;
    assert BURIED[1].parents == [0] && BURIED[2].parents == [1];
  }

  lemma NeverItself(repo: Repo, from: nat, to: nat, c: nat)
    requires Valid(repo) && from < |repo| && to < |repo| && c in RevList(repo, from, to, [])
    ensures c < |repo| && c != from
  {
    assert from in Reach(repo, from);
  }

  lemma QuietCommit(repo: Repo, c: nat, rules: Rules, allow: Allowlist.Table)
    requires Valid(repo) && c < |repo| && repo[c].parents != []
    requires repo[c].version > FirstParentVersion(repo, c) || repo[c].diff == []
    ensures Answered(repo, c, rules, allow)
  {
  }

  lemma BuriedWalk()
    requires Valid(BURIED)
    ensures Failures(BURIED, RevList(BURIED, 0, 2, []), Rules({GOVERNED_PATH}, [], []), map[]) == []
  {
    var rules := Rules({GOVERNED_PATH}, [], []);
    var commits := RevList(BURIED, 0, 2, []);
    WalkPasses(BURIED, commits, rules, map[]);
    forall c | c in commits ensures Answered(BURIED, c, rules, map[]) {
      NeverItself(BURIED, 0, 2, c);
      hide RevList, Valid, Failures, Answered, BEFORE, AFTER, GOVERNED_PATH;
      assert c == 1 || c == 2;
      QuietCommit(BURIED, c, rules, map[]);
    }
  }

  lemma BuriedValid()
    ensures Valid(BURIED)
  {
    var edit := DiffLine("M", GOVERNED_PATH, GOVERNED_PATH);
    assert edit in BURIED[1].diff && !IsMove(edit);
    assert Listed(BURIED[1].diff, GOVERNED_PATH);
    assert BEFORE[GOVERNED_PATH] != AFTER[GOVERNED_PATH];
    forall path | Lookup(BEFORE, path) != Lookup(AFTER, path) ensures path == GOVERNED_PATH {}
    assert Faithful(BEFORE, AFTER, BURIED[1].diff);
    assert Faithful(AFTER, AFTER, []);
  }
}
