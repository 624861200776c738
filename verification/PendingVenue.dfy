/**
 The layout gate's other venue: a change that is still in the worktree. What it decides is
 compared with what the pushing venue will decide of the same change once it is a commit.
 */
module PendingVenue {
  import opened Wrappers
  import opened LayoutGate
  import Allowlist

  /**
   The change being committed: the worktree's version, tree and slug hash, its diff against the
   base, the other heads of a merge in progress, and the migrations and fixtures on disk.
   */
  datatype Pending = Pending(version: nat, tree: Tree, diff: seq<DiffLine>, slug: Option<string>,
                             mergeHeads: seq<nat>, modules: set<nat>, fixtures: set<nat>)

  // ----- Check A

  function CheckAPending(repo: Repo, base: nat, w: Pending): VerdictA
    requires base < |repo| && Below(w.mergeHeads, |repo|)
  {
    VersionStep(w.version, HighestBase(repo, repo[base].version, w.mergeHeads), w.mergeHeads != [], w.modules, w.fixtures)
  }

  // ----- Check B

  datatype Verdict = Verdict(hits: seq<string>, slugDrift: bool) {
    predicate Passes() { hits == [] && !slugDrift }
  }

  /** Check B stands down for a pending bump: the worktree differs from the base and is above HEAD. */
  predicate Disarmed(repo: Repo, head: nat, base: nat, w: Pending)
    requires head < |repo| && base < |repo|
  {
    w.version != repo[base].version && w.version > repo[head].version
  }

  /** Check B's answer for a pending change; standing down comes before anything is loaded. */
  function PendingVerdict(repo: Repo, head: nat, base: nat, w: Pending, rules: Rules): Result<Verdict, Allowlist.Refusal>
    requires head < |repo| && base < |repo|
  {
    if Disarmed(repo, head, base, w) then Ok(Verdict([], false))
    else
      match Allowlist.Load(rules.rows)
      case Err(e) => Err(e)
      case Ok(allow) =>
        Ok(Verdict(Hits(ChangedFiles(w.diff), rules, allow, w.tree), Drifts(allow, repo[base].slug, w.slug)))
  }

  method CheckB(repo: Repo, head: nat, base: nat, w: Pending, rules: Rules) returns (r: Result<Verdict, Allowlist.Refusal>)
    requires head < |repo| && base < |repo|
    ensures r == PendingVerdict(repo, head, base, w, rules)
    ensures r.Ok? && r.value.Passes()
       <==> || (w.version > repo[head].version && w.version != repo[base].version)
            || (Allowlist.Load(rules.rows).Ok? && NothingPending(repo, base, w, rules, Allowlist.Load(rules.rows).value))
  {
    PendingExactly(repo, head, base, w, rules);
    hide NothingPending;
    if w.version != repo[base].version && w.version > repo[head].version {
      return Ok(Verdict([], false));
    }
    var loaded := Allowlist.LoadAllowlist(rules.rows);
    if loaded.Err? {
      return Err(loaded.error);
    }
    var allow := loaded.value;
    Allowlist.LoadedIsScoped(rules.rows);
    var changed := ListChangedFiles(w.diff);
    var scan := ScanChangedFiles(changed, rules, allow, w.tree);
    if scan.Err? {
      assert false;
      return Ok(Verdict([], false));
    }
    var drift := false;
    if Allowlist.Str(SLUG_FUNC_SENTINEL) !in allow {
      drift := repo[base].slug.Some? && w.slug.Some? && repo[base].slug != w.slug;
    }
    return Ok(Verdict(scan.value, drift));
  }

  /** The worktree's diff lists a relevant path, without moving it, that no row signs as the worktree has it. */
  ghost predicate Unsettling(w: Pending, rules: Rules, allow: Allowlist.Table, path: string) {
    && (exists l | l in w.diff :: l.path == path && !("R" <= l.status) && !("C" <= l.status))
    && Relevant(rules, path) && NotSigned(allow, w.tree, path)
  }

  /** No change to a governed file is unsigned, and the slug function is the base's, missing on one side, or exempt. */
  ghost predicate NothingPending(repo: Repo, base: nat, w: Pending, rules: Rules, allow: Allowlist.Table)
    requires base < |repo|
  {
    && (forall path :: !Unsettling(w, rules, allow, path))
    && (Allowlist.Str("src/hhemt/scenario.py::compute_event_id_slug") in allow
        || repo[base].slug == None || w.slug == None || repo[base].slug == w.slug)
  }

  lemma PendingHits(w: Pending, rules: Rules, allow: Allowlist.Table)
    ensures forall path :: path in Hits(ChangedFiles(w.diff), rules, allow, w.tree) <==> Unsettling(w, rules, allow, path)
  {
    hide Relevant, NotSigned;
    HitsExactly(ChangedFiles(w.diff), rules, allow, w.tree);
    forall path { ChangedPaths(w.diff, path); }
  }

  /**
   The pending verdict, for every HEAD and every base: it passes when the worktree is above HEAD and
   differs from the base, whatever else it holds, and otherwise exactly when the rules load and
   nothing is pending against them.
   */
  lemma PendingExactly(repo: Repo, head: nat, base: nat, w: Pending, rules: Rules)
    requires head < |repo| && base < |repo|
    ensures PendingVerdict(repo, head, base, w, rules).Ok? && PendingVerdict(repo, head, base, w, rules).value.Passes()
       <==> || (w.version > repo[head].version && w.version != repo[base].version)
            || (Allowlist.Load(rules.rows).Ok? && NothingPending(repo, base, w, rules, Allowlist.Load(rules.rows).value))
  {
    if Allowlist.Load(rules.rows).Ok? {
      var allow := Allowlist.Load(rules.rows).value;
      PendingHits(w, rules, allow);
      hide Unsettling;
      var hits := Hits(ChangedFiles(w.diff), rules, allow, w.tree);
      if hits != [] { assert hits[0] in hits; }
    }
  }

  /** A bump that has landed already excuses nothing: a worktree at HEAD's version is scanned, whatever the base, and gets the scan's answer. */
  lemma LandedBumpIsScanned(repo: Repo, head: nat, base: nat, w: Pending, rules: Rules)
    requires head < |repo| && base < |repo| && w.version <= repo[head].version
    ensures var r, loaded := PendingVerdict(repo, head, base, w, rules), Allowlist.Load(rules.rows);
            && (loaded.Err? ==> r == Err(loaded.error))
            && (loaded.Ok? ==>
                  && r.Ok?
                  && (forall path :: path in r.value.hits <==> Unsettling(w, rules, loaded.value, path))
                  && (r.value.Passes() <==> NothingPending(repo, base, w, rules, loaded.value)))
  {
    PendingExactly(repo, head, base, w, rules);
    if Allowlist.Load(rules.rows).Ok? { PendingHits(w, rules, Allowlist.Load(rules.rows).value); }
    hide Unsettling, NothingPending;
  }

  /** Check A on a pending change: it passes at the highest version among the base and the merge heads, or one above with the migration there. */
  lemma PendingStepExactly(repo: Repo, base: nat, w: Pending, top: nat)
    requires base < |repo| && Below(w.mergeHeads, |repo|)
    requires top >= repo[base].version && forall p | p in w.mergeHeads :: repo[p].version <= top
    requires top == repo[base].version || exists p | p in w.mergeHeads :: repo[p].version == top
    ensures var r := CheckAPending(repo, base, w);
            && (r == Unchanged <==> w.version == top)
            && (r == Shipped <==> w.version == top + 1 && top + 1 in w.modules && top in w.fixtures && top + 1 in w.fixtures)
            && (r == UndoesBump <==> w.mergeHeads != [] && w.version < top)
            && (r.Passes() <==> r == Unchanged || r == Shipped)
  {
    assert HighestBase(repo, repo[base].version, w.mergeHeads) == top;
  }

  /**
   When Check B stands down, Check A never answers "unchanged" outside a merge, and then passes
   only a shipped bump of one. During a merge it does answer "unchanged", exactly when the
   worktree holds the highest version among the base and the merge heads.
   */
  lemma DisarmHandsOver(repo: Repo, head: nat, base: nat, w: Pending)
    requires head < |repo| && base < |repo| && Below(w.mergeHeads, |repo|)
    requires Disarmed(repo, head, base, w)
    ensures w.mergeHeads == [] ==>
              (CheckAPending(repo, base, w).Passes()
               <==> && w.version == repo[base].version + 1
                    && w.version in w.modules && {repo[base].version, w.version} <= w.fixtures)
    ensures CheckAPending(repo, base, w) == Unchanged
       <==> && (exists p | p in w.mergeHeads :: repo[p].version == w.version)
            && w.version > repo[base].version
            && forall p | p in w.mergeHeads :: repo[p].version <= w.version
  {
  }

  // ----- the two venues on one change

  /** Commit `c` is the pending change, committed on top of `head` and the heads of the merge, if one is in progress. */
  ghost predicate Committed(repo: Repo, head: nat, c: nat, w: Pending)
    requires c < |repo|
  {
    && repo[c].parents == [head] + w.mergeHeads
    && repo[c].version == w.version && repo[c].tree == w.tree && repo[c].diff == w.diff && repo[c].slug == w.slug
    && repo[c].modules == w.modules && repo[c].fixtures == w.fixtures
  }

  // Check A

  /** Check A's answer for a pending change, merge or not, is its answer for the commit made of it. */
  lemma SameStep(repo: Repo, head: nat, c: nat, w: Pending)
    requires Valid(repo) && head < |repo| && c < |repo| && Committed(repo, head, c, w) && Below(w.mergeHeads, |repo|)
    ensures CheckAPending(repo, head, w) == CheckA(repo, c, repo[head].version)
    ensures StepPasses(repo, c) <==> CheckAPending(repo, head, w).Passes()
  {
    assert repo[c].parents[0] == head;
    assert ([head] + w.mergeHeads)[1..] == w.mergeHeads;
    hide VersionStep;
  }

  /** The change a commit was while it was pending. */
  function Before(repo: Repo, c: nat): Pending
    requires c < |repo| && repo[c].parents != []
  {
    var commit := repo[c];
    Pending(commit.version, commit.tree, commit.diff, commit.slug, commit.parents[1..], commit.modules, commit.fixtures)
  }

  /**
   The commit-time hook on every commit is all that the theorems about versions ask: a graph is gated
   exactly when each commit with a parent passed Check A while it was pending on its first parent.
   */
  lemma CommitHookGates(repo: Repo)
    requires Valid(repo)
    ensures GatedByA(repo)
       <==> forall c | 0 <= c < |repo| && repo[c].parents != [] :: CheckAPending(repo, repo[c].parents[0], Before(repo, c)).Passes()
  {
    forall c | 0 <= c < |repo| && repo[c].parents != []
      ensures StepPasses(repo, c) <==> CheckAPending(repo, repo[c].parents[0], Before(repo, c)).Passes()
    {
      var head, w := repo[c].parents[0], Before(repo, c);
      assert repo[c].parents == [head] + w.mergeHeads;
      SameStep(repo, head, c, w);
    }
    hide CheckAPending, StepPasses, Valid;
    forall c | 0 <= c < |repo| && repo[c].parents == [] ensures StepPasses(repo, c) { RootPasses(repo, c); }
  }

  lemma RootPasses(repo: Repo, c: nat)
    requires Valid(repo) && c < |repo| && repo[c].parents == []
    ensures StepPasses(repo, c)
  {
  }

  // Check B

  /** Pushing the commit: the rules load, no file of any graded commit fails and the slug has not drifted. */
  ghost predicate PushPasses(repo: Repo, head: nat, c: nat, remotes: seq<nat>, rules: Rules)
    requires Valid(repo) && head < |repo| && c < |repo| && Below(remotes, |repo|)
  {
    && Allowlist.Load(rules.rows).Ok?
    && var allow := Allowlist.Load(rules.rows).value;
       VerdictB(Failures(repo, RevList(repo, head, c, remotes), rules, allow), SlugDrift(repo, head, c, allow)).Passes()
  }

  ghost predicate PendingPasses(repo: Repo, head: nat, w: Pending, rules: Rules)
    requires head < |repo|
  {
    PendingVerdict(repo, head, head, w, rules).Ok? && PendingVerdict(repo, head, head, w, rules).value.Passes()
  }

  /** A bump's push needs what the pending check did not look at: rules that load, and a slug that is unchanged or exempt. */
  ghost predicate BumpSettled(repo: Repo, head: nat, w: Pending, rules: Rules)
    requires head < |repo|
  {
    w.version > repo[head].version ==>
      Allowlist.Load(rules.rows).Ok? && !Drifts(Allowlist.Load(rules.rows).value, repo[head].slug, w.slug)
  }

  /** Every other commit the push brings, as a merge does, answers for its own changes. */
  ghost predicate OthersAnswered(repo: Repo, head: nat, c: nat, remotes: seq<nat>, rules: Rules)
    requires Valid(repo) && head < |repo| && c < |repo| && Below(remotes, |repo|)
  {
    Allowlist.Load(rules.rows).Ok? ==>
      forall d | d in RevList(repo, head, c, remotes) && d != c :: Answered(repo, d, rules, Allowlist.Load(rules.rows).value)
  }

  /** While pending, and once committed, the same file hits. */
  lemma SameHits(repo: Repo, head: nat, c: nat, w: Pending, rules: Rules, allow: Allowlist.Table)
    requires Valid(repo) && head < |repo| && c < |repo| && Committed(repo, head, c, w)
    ensures Answered(repo, c, rules, allow)
       <==> w.version > repo[head].version || Hits(ChangedFiles(w.diff), rules, allow, w.tree) == []
  {
    CommitPasses(repo, c, rules, allow);
    hide Hits, Answered;
  }

  /**
   The push of a change repeats the verdict it had while pending, merges included, with one
   exception: a change that raises the version passes unexamined while pending, but its push still
   needs an allowlist that loads and a slug that is unchanged or exempt. Raising the version, the
   first remedy the slug message offers, does not settle the slug at the push. What a merge brings
   besides itself is graded with it.
   */
  lemma VenuesAgree(repo: Repo, head: nat, c: nat, w: Pending, remotes: seq<nat>, rules: Rules)
    requires Valid(repo) && head < |repo| && c < |repo| && Committed(repo, head, c, w)
    requires Below(remotes, |repo|) && c !in ReachAny(repo, remotes, |repo|)
    ensures PushPasses(repo, head, c, remotes, rules)
       <==> && PendingPasses(repo, head, w, rules) && BumpSettled(repo, head, w, rules)
            && OthersAnswered(repo, head, c, remotes, rules)
  {
    hide PushPasses, PendingPasses, Valid, ReachAny, RevList, Answered, Drifts, Hits, ChangedFiles, Committed;
    CommitsFirstParent(repo, head, c, w);
    PushIs(repo, head, c, w, remotes, rules);
    PendingIs(repo, head, w, rules);
    if Allowlist.Load(rules.rows).Ok? { SameHits(repo, head, c, w, rules, Allowlist.Load(rules.rows).value); }
  }

  lemma CommitsFirstParent(repo: Repo, head: nat, c: nat, w: Pending)
    requires Valid(repo) && head < |repo| && c < |repo| && Committed(repo, head, c, w)
    ensures head < c
  {
    assert head == repo[c].parents[0];
  }

  lemma PushIs(repo: Repo, head: nat, c: nat, w: Pending, remotes: seq<nat>, rules: Rules)
    requires Valid(repo) && head < c < |repo| && Committed(repo, head, c, w)
    requires Below(remotes, |repo|) && c !in ReachAny(repo, remotes, |repo|)
    ensures PushPasses(repo, head, c, remotes, rules)
       <==> && Allowlist.Load(rules.rows).Ok?
            && !Drifts(Allowlist.Load(rules.rows).value, repo[head].slug, w.slug)
            && Answered(repo, c, rules, Allowlist.Load(rules.rows).value)
            && OthersAnswered(repo, head, c, remotes, rules)
  {
    assert c in RevList(repo, head, c, remotes);
    SameSlug(repo, head, c, w);
    hide Valid, Reach, ReachAny, RevList, Failures, Answered, Drifts, Committed;
    if Allowlist.Load(rules.rows).Ok? {
      WalkPasses(repo, RevList(repo, head, c, remotes), rules, Allowlist.Load(rules.rows).value);
    }
  }

  lemma PendingIs(repo: Repo, head: nat, w: Pending, rules: Rules)
    requires head < |repo|
    ensures PendingPasses(repo, head, w, rules)
       <==> || w.version > repo[head].version
            || (&& Allowlist.Load(rules.rows).Ok?
                && Hits(ChangedFiles(w.diff), rules, Allowlist.Load(rules.rows).value, w.tree) == []
                && !Drifts(Allowlist.Load(rules.rows).value, repo[head].slug, w.slug))
  {
    hide Drifts, Hits, ChangedFiles;
  }

  lemma SameSlug(repo: Repo, head: nat, c: nat, w: Pending)
    requires c < |repo| && Committed(repo, head, c, w)
    ensures repo[c].slug == w.slug
  {
  }

  /** A change that is no merge brings nothing but itself, so its push depends on nothing else. */
  lemma PlainCommitAgrees(repo: Repo, head: nat, c: nat, w: Pending, remotes: seq<nat>, rules: Rules)
    requires Valid(repo) && head < |repo| && c < |repo| && Committed(repo, head, c, w) && w.mergeHeads == []
    requires Below(remotes, |repo|) && c !in ReachAny(repo, remotes, |repo|)
    ensures PushPasses(repo, head, c, remotes, rules) <==> PendingPasses(repo, head, w, rules) && BumpSettled(repo, head, w, rules)
  {
    VenuesAgree(repo, head, c, w, remotes, rules);
    assert repo[c].parents == [head];
    forall d | d in RevList(repo, head, c, remotes) ensures d == c {
      if d != c { var p := ViaParent(repo, c, d); }
    }
  }

  // ----- the slug message's first remedy, taken

  /** A root with one slug function, and a shipped bump on top of it with another. */
  const SLUGGED: Repo := [
    Commit([], 1, map[], [], {1}, {1}, Some("a")),
    Commit([0], 2, map[], [], {1, 2}, {1, 2}, Some("b"))
  ]

  /** While pending both checks pass the bump; its push fails on the slug. */
  lemma BumpStopsAtPush()
    ensures Valid(SLUGGED) && Committed(SLUGGED, 0, 1, Before(SLUGGED, 1))
    ensures var w, rules := Before(SLUGGED, 1), Rules({}, [], []);
            && CheckAPending(SLUGGED, 0, w) == Shipped && PendingPasses(SLUGGED, 0, w, rules)
            && !PushPasses(SLUGGED, 0, 1, [], rules)
  {
    var w, rules := Before(SLUGGED, 1), Rules({}, [], []);
    assert Faithful(SLUGGED[0].tree, SLUGGED[1].tree, SLUGGED[1].diff);
    assert Valid(SLUGGED);
    assert Allowlist.Load(rules.rows) == Ok(map[]);
    assert [0] + w.mergeHeads == [0];
    PlainCommitAgrees(SLUGGED, 0, 1, w, [], rules);
    assert !BumpSettled(SLUGGED, 0, w, rules);
  }
}
