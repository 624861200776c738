/**
 Reclaiming disk after a simulation: the per-scenario arm (reclaim, then the disk-usage
 sentinel, then the flag), the fallback loop for events the arm did not cover, and the
 member arm's total. An arm and the fallback can crash between any two effects, and the steps of
 different events, and of an arm and the fallback at one event, interleave.
 */
module Reclaim {
  import opened Wrappers

  // ----- one scenario directory

  datatype Class = HydroOut | PrepInputs | Hydrographs | StandaloneRpt

  const ORDER := [HydroOut, PrepInputs, Hydrographs, StandaloneRpt]

  /**
   The artifacts of one class: the bytes on disk; the bytes that stay when the class is reclaimed
   (all of them while its capture gate is closed, the head and trailer of a truncated report); how
   many of the others go without the sentinel hearing of it (a truncation is not accounted, a
   deletion is); and the bytes of the capture that is written before a report is deleted.
   */
  datatype Artifact = Artifact(size: nat, kept: nat, silent: nat, capture: nat)

  datatype Scenario = Scenario(
    artifacts: map<Class, Artifact>,
    other: nat,                // bytes of everything else
    sentinel: Option<nat>,     // _status/_du.json
    flag: bool,                // f_consolidate_scenario_evt-{id}_complete.flag
    summaries: bool)           // every enabled model's summary is present

  ghost predicate Sound(s: Scenario) {
    && (forall c: Class :: c in s.artifacts)
    && forall c | c in s.artifacts :: s.artifacts[c].kept + s.artifacts[c].silent <= s.artifacts[c].size
  }

  function SizeOf(s: Scenario, c: Class): nat {
    if c in s.artifacts then s.artifacts[c].size else 0
  }

  /** The scenario's bytes on disk; `_status/` is never counted. */
  function Total(s: Scenario): nat {
    s.other + SizeOf(s, HydroOut) + SizeOf(s, PrepInputs) + SizeOf(s, Hydrographs) + SizeOf(s, StandaloneRpt)
  }

  predicate Reclaimed(s: Scenario, c: Class) {
    c in s.artifacts ==> s.artifacts[c].size == s.artifacts[c].kept
  }

  ghost predicate AllReclaimed(s: Scenario, elected: set<Class>) {
    forall c | c in elected :: Reclaimed(s, c)
  }

  /** Deleted bytes come off an existing sentinel, never below zero. */
  function Decrement(sentinel: Option<nat>, freed: nat): Option<nat> {
    match sentinel
    case Some(t) => Some(if t >= freed then t - freed else 0)
    case None => None
  }

  function ReclaimClass(s: Scenario, elected: set<Class>, c: Class): (r: Scenario)
    ensures c in elected ==> Reclaimed(r, c)
    ensures forall d | d != c :: SizeOf(r, d) == SizeOf(s, d) && (Reclaimed(r, d) <==> Reclaimed(s, d))
    ensures Reclaimed(s, c) ==> r == s
    ensures r.flag == s.flag && r.summaries == s.summaries
    ensures Sound(s) ==> Sound(r)
  {
    if c !in elected || c !in s.artifacts || Reclaimed(s, c) then s
    else
      var a := s.artifacts[c];
      s.(artifacts := s.artifacts[c := Artifact(a.kept, a.kept, 0, 0)],
         other := s.other + a.capture,
         sentinel := if a.size >= a.kept + a.silent then Decrement(s.sentinel, a.size - a.kept - a.silent) else s.sentinel)
  }

  /** The first `n` classes, in the order the reclaim goes through them. */
  function ReclaimUpTo(s: Scenario, elected: set<Class>, n: nat): Scenario
    requires n <= |ORDER|
  {
    if n == 0 then s else ReclaimClass(ReclaimUpTo(s, elected, n - 1), elected, ORDER[n - 1])
  }

  function ReclaimScenario(s: Scenario, elected: set<Class>): Scenario {
    ReclaimUpTo(s, elected, |ORDER|)
  }

  lemma {:induction false} ReclaimUpToHolds(s: Scenario, elected: set<Class>, n: nat)
    requires n <= |ORDER|
    ensures var r := ReclaimUpTo(s, elected, n);
            && r.flag == s.flag && r.summaries == s.summaries
            && (Sound(s) ==> Sound(r))
            && (forall k | 0 <= k < n && ORDER[k] in elected :: Reclaimed(r, ORDER[k]))
            && (forall c | Reclaimed(s, c) :: Reclaimed(r, c))
    ensures AllReclaimed(s, elected) ==> ReclaimUpTo(s, elected, n) == s
  {
    if n > 0 { ReclaimUpToHolds(s, elected, n - 1); }
  }

  /** A reclaim touches neither the flag nor the summaries. */
  lemma ReclaimKeepsMarks(s: Scenario, elected: set<Class>)
    ensures ReclaimScenario(s, elected).flag == s.flag && ReclaimScenario(s, elected).summaries == s.summaries
  {
    ReclaimUpToHolds(s, elected, |ORDER|);
  }

  lemma OrderCoversAll(c: Class)
    ensures exists k | 0 <= k < |ORDER| :: ORDER[k] == c
  {
    assert ORDER[0] == HydroOut && ORDER[1] == PrepInputs && ORDER[2] == Hydrographs && ORDER[3] == StandaloneRpt;
  }

  /** After a whole reclaim every elected class is reclaimed, and reclaiming again changes nothing. */
  lemma ReclaimIsComplete(s: Scenario, elected: set<Class>)
    ensures AllReclaimed(ReclaimScenario(s, elected), elected)
    ensures ReclaimScenario(ReclaimScenario(s, elected), elected) == ReclaimScenario(s, elected)
  {
    ReclaimUpToHolds(s, elected, |ORDER|);
    var r := ReclaimScenario(s, elected);
    forall c | c in elected ensures Reclaimed(r, c) {
      OrderCoversAll(c);
      var k :| 0 <= k < |ORDER| && ORDER[k] == c;
    }
    ReclaimUpToHolds(r, elected, |ORDER|);
  }

  /**
   What a reclaim leaves, class by class: of an elected class what it keeps, of the others everything;
   the captures of the classes that lost something are added, and the marks stay.
   */
  lemma ReclaimExactly(s: Scenario, elected: set<Class>)
    requires Sound(s)
    ensures var r, a := ReclaimScenario(s, elected), s.artifacts;
            && (forall c: Class :: SizeOf(r, c) == if c in elected then a[c].kept else a[c].size)
            && r.other == s.other
                 + (if HydroOut in elected && a[HydroOut].size != a[HydroOut].kept then a[HydroOut].capture else 0)
                 + (if PrepInputs in elected && a[PrepInputs].size != a[PrepInputs].kept then a[PrepInputs].capture else 0)
                 + (if Hydrographs in elected && a[Hydrographs].size != a[Hydrographs].kept then a[Hydrographs].capture else 0)
                 + (if StandaloneRpt in elected && a[StandaloneRpt].size != a[StandaloneRpt].kept then a[StandaloneRpt].capture else 0)
            && r.flag == s.flag && r.summaries == s.summaries
  {
    var r1, r2, r3 := ReclaimUpTo(s, elected, 1), ReclaimUpTo(s, elected, 2), ReclaimUpTo(s, elected, 3);
    FourSteps(s, elected);
    ReclaimKeepsMarks(s, elected);
    hide ReclaimClass, ReclaimScenario, ReclaimUpTo;
    OneReclaimed(s, elected, HydroOut);
    OneReclaimed(r1, elected, PrepInputs);
    OneReclaimed(r2, elected, Hydrographs);
    OneReclaimed(r3, elected, StandaloneRpt);
    forall c: Class ensures SizeOf(ReclaimScenario(s, elected), c) == if c in elected then s.artifacts[c].kept else s.artifacts[c].size {
      match c { case HydroOut => case PrepInputs => case Hydrographs => case StandaloneRpt => }
    }
    hide SizeOf, Reclaimed;
  }

  lemma FourSteps(s: Scenario, elected: set<Class>)
    ensures ReclaimUpTo(s, elected, 1) == ReclaimClass(s, elected, HydroOut)
    ensures ReclaimUpTo(s, elected, 2) == ReclaimClass(ReclaimUpTo(s, elected, 1), elected, PrepInputs)
    ensures ReclaimUpTo(s, elected, 3) == ReclaimClass(ReclaimUpTo(s, elected, 2), elected, Hydrographs)
    ensures ReclaimScenario(s, elected) == ReclaimClass(ReclaimUpTo(s, elected, 3), elected, StandaloneRpt)
  {
    hide ReclaimClass;
    assert ORDER[0] == HydroOut && ORDER[1] == PrepInputs && ORDER[2] == Hydrographs && ORDER[3] == StandaloneRpt;
    assert ReclaimUpTo(s, elected, 0) == s;
  }

  lemma OneReclaimed(s: Scenario, elected: set<Class>, c: Class)
    requires forall d: Class :: d in s.artifacts
    ensures var r, a := ReclaimClass(s, elected, c), s.artifacts[c];
            && (forall d: Class :: d in r.artifacts && (d != c ==> r.artifacts[d] == s.artifacts[d]))
            && r.artifacts[c].size == (if c in elected then a.kept else a.size)
            && r.other == s.other + if c in elected && a.size != a.kept then a.capture else 0
  {
  }

  // ----- what a reclaim does to a sentinel that was exact

  /** The bytes one class loses without the sentinel hearing of it. */
  function Silent(s: Scenario, elected: set<Class>, c: Class): nat {
    if c in elected && c in s.artifacts && !Reclaimed(s, c) then s.artifacts[c].silent else 0
  }

  /** The bytes one class's capture adds, which the sentinel does not hear of either. */
  function Captured(s: Scenario, elected: set<Class>, c: Class): nat {
    if c in elected && c in s.artifacts && !Reclaimed(s, c) then s.artifacts[c].capture else 0
  }

  function SilentUpTo(s: Scenario, elected: set<Class>, n: nat): nat
    requires n <= |ORDER|
  {
    if n == 0 then 0 else SilentUpTo(s, elected, n - 1) + Silent(s, elected, ORDER[n - 1])
  }

  function CapturedUpTo(s: Scenario, elected: set<Class>, n: nat): nat
    requires n <= |ORDER|
  {
    if n == 0 then 0 else CapturedUpTo(s, elected, n - 1) + Captured(s, elected, ORDER[n - 1])
  }

  lemma {:induction false} Drift(s: Scenario, elected: set<Class>, n: nat)
    requires n <= |ORDER| && Sound(s) && s.sentinel == Some(Total(s))
    ensures var r := ReclaimUpTo(s, elected, n);
            && r.sentinel.Some? && r.other >= CapturedUpTo(s, elected, n)
            && r.sentinel.value + CapturedUpTo(s, elected, n) == Total(r) + SilentUpTo(s, elected, n)
            && Sound(r) && forall k | n <= k < |ORDER| :: r.artifacts[ORDER[k]] == s.artifacts[ORDER[k]]
  {
    hide ReclaimClass, Total;
    if n > 0 {
      Drift(s, elected, n - 1);
      var r := ReclaimUpTo(s, elected, n - 1);
      var c := ORDER[n - 1];
      assert r.artifacts[c] == s.artifacts[c];
      OneDrift(r, elected, c);
      forall k | n <= k < |ORDER| ensures ORDER[k] != c {}
    }
  }

  /** One class: the total drops by what it loses and grows by its capture, the sentinel drops by the accounted part of the loss. */
  lemma OneDrift(s: Scenario, elected: set<Class>, c: Class)
    requires Sound(s) && s.sentinel.Some? && s.sentinel.value + s.other >= Total(s)
    ensures var r := ReclaimClass(s, elected, c);
            && r.sentinel.Some? && r.other == s.other + Captured(s, elected, c)
            && r.sentinel.value - Total(r)
            == s.sentinel.value - Total(s) + Silent(s, elected, c) - Captured(s, elected, c)
            && forall d | d != c :: d in r.artifacts && r.artifacts[d] == s.artifacts[d]
  {
    var r := ReclaimClass(s, elected, c);
    if c in elected && !Reclaimed(s, c) {
      var a := s.artifacts[c];
      assert SizeOf(r, c) == a.kept;
      assert Total(s) >= s.other + a.size;
      assert Total(r) == Total(s) - (a.size - a.kept) + a.capture by {
        match c { case HydroOut => case PrepInputs => case Hydrographs => case StandaloneRpt => }
      }
    }
  }

  /**
   What the fallback does to an exact sentinel, which it does not write again: it ends up too high
   by the truncated bytes and too low by the captures, so it stays exact only when the two are equal.
   */
  lemma ReclaimDrift(s: Scenario, elected: set<Class>)
    requires Sound(s) && s.sentinel == Some(Total(s))
    ensures var r := ReclaimScenario(s, elected);
            && r.sentinel.Some?
            && r.sentinel.value - Total(r) == SilentUpTo(s, elected, |ORDER|) - CapturedUpTo(s, elected, |ORDER|)
            && (r.sentinel == Some(Total(r)) <==> SilentUpTo(s, elected, |ORDER|) == CapturedUpTo(s, elected, |ORDER|))
  {
    Drift(s, elected, |ORDER|);
  }

  /** A report that is truncated from five bytes to one, in a directory whose sentinel is exact. */
  const TRUNCATED := Scenario(map[HydroOut := Artifact(0, 0, 0, 0), PrepInputs := Artifact(0, 0, 0, 0),
                                  Hydrographs := Artifact(0, 0, 0, 0), StandaloneRpt := Artifact(5, 1, 4, 0)],
                              1, Some(6), false, true)

  lemma TruncationDrifts()
    ensures TRUNCATED.sentinel == Some(Total(TRUNCATED)) && FallbackActs(TRUNCATED)
    ensures var r := ReclaimScenario(TRUNCATED, {StandaloneRpt}); r.sentinel.Some? && r.sentinel.value == Total(r) + 4
  {
    var elected := {StandaloneRpt};
    assert SilentUpTo(TRUNCATED, elected, |ORDER|) == 4 && CapturedUpTo(TRUNCATED, elected, |ORDER|) == 0 by {
      OnlyTheReport(elected);
    }
    TruncatedSound();
    hide ReclaimScenario, SilentUpTo, CapturedUpTo;
    ReclaimDrift(TRUNCATED, elected);
  }

  lemma TruncatedSound()
    ensures Sound(TRUNCATED)
  {
    forall c: Class ensures c in TRUNCATED.artifacts {
      match c { case HydroOut => case PrepInputs => case Hydrographs => case StandaloneRpt => }
    }
  }

  lemma OnlyTheReport(elected: set<Class>)
    requires elected == {StandaloneRpt}
    ensures SilentUpTo(TRUNCATED, elected, |ORDER|) == 4 && CapturedUpTo(TRUNCATED, elected, |ORDER|) == 0
  {
    NotElected(elected, 3);
    assert ORDER[3] == StandaloneRpt && !Reclaimed(TRUNCATED, StandaloneRpt);
    hide SilentUpTo, CapturedUpTo;
    LastClass(elected);
  }

  lemma LastClass(elected: set<Class>)
    ensures SilentUpTo(TRUNCATED, elected, 4) == SilentUpTo(TRUNCATED, elected, 3) + Silent(TRUNCATED, elected, ORDER[3])
    ensures CapturedUpTo(TRUNCATED, elected, 4) == CapturedUpTo(TRUNCATED, elected, 3) + Captured(TRUNCATED, elected, ORDER[3])
  {
  }

  lemma {:induction false} NotElected(elected: set<Class>, n: nat)
    requires n <= 3 && elected == {StandaloneRpt}
    ensures SilentUpTo(TRUNCATED, elected, n) == 0 && CapturedUpTo(TRUNCATED, elected, n) == 0
  {
    if n > 0 {
      NotElected(elected, n - 1);
      assert ORDER[n - 1] !in elected;
    }
  }

  // ----- the protocol as a state machine

  /** How far a running arm has come: classes gone through, or the sentinel written. */
  datatype Phase = Idle | Reclaiming(done: nat) | Recorded

  /**
   What the fallback still owes the sentinel: a deletion takes the bytes off first, then reads the
   sentinel, then writes it back smaller.
   */
  datatype Accounting = Settled | Owed(freed: nat) | Read(total: Option<nat>, freed: nat)

  /** One event: its directory, its arm, and the fallback loop's pass over it, if one is under way. */
  datatype Site = Site(disk: Scenario, phase: Phase, fallback: bool, accounting: Accounting)

  type State = map<string, Site>

  datatype Action =
    | StartArm
    | ReclaimNext
    | RemovePart(class_: Class, rest: Artifact, written: nat, sentinel: Option<nat>)   // the arm's reclaim of a class, interrupted
    | WriteSentinel
    | WriteFlag
    | Crash
    | FallbackStart                  // the loop reaches this event and neither skip holds
    | FallbackRemove(class_: Class, rest: Artifact, written: nat, freed: nat)
    | FallbackRead
    | FallbackRecord
    | FallbackEnd                    // also where it crashes
    | Recount                        // the member arm re-derives the sentinel
    | DeleteFlag                     // a force-rerun at stage `consolidate`
    | Reprocess(renewed: Scenario)   // new artifacts

  /** The fallback loop's two skips. */
  predicate FallbackActs(s: Scenario) {
    !s.flag && s.summaries
  }

  /** Some bytes of an elected class are gone and a capture may have been written. */
  predicate Removable(s: Scenario, elected: set<Class>, c: Class, rest: Artifact) {
    && c in elected && c in s.artifacts
    && rest.size < s.artifacts[c].size && rest.kept == s.artifacts[c].kept && rest.kept + rest.silent <= rest.size
  }

  function Removed(s: Scenario, c: Class, rest: Artifact, written: nat): Scenario {
    s.(artifacts := s.artifacts[c := rest], other := s.other + written)
  }

  /** What one action does at one event; None when it cannot happen there. */
  function Act(site: Site, elected: set<Class>, a: Action): Option<Site> {
    var s := site.disk;
    match a
    case StartArm => if site.phase == Idle then Some(site.(phase := Reclaiming(0))) else None
    case ReclaimNext =>
      if site.phase.Reclaiming? && site.phase.done < |ORDER| then
        Some(site.(disk := ReclaimClass(s, elected, ORDER[site.phase.done]), phase := Reclaiming(site.phase.done + 1)))
      else None
    case RemovePart(c, rest, written, sentinel) =>
      if site.phase.Reclaiming? && site.phase.done < |ORDER| && ORDER[site.phase.done] == c && Removable(s, elected, c, rest) then
        Some(site.(disk := Removed(s, c, rest, written).(sentinel := sentinel)))
      else None
    case WriteSentinel =>
      if site.phase == Reclaiming(|ORDER|) then Some(site.(disk := s.(sentinel := Some(Total(s))), phase := Recorded)) else None
    case WriteFlag =>
      if site.phase == Recorded then Some(site.(disk := s.(flag := true), phase := Idle)) else None
    case Crash => Some(site.(phase := Idle))
    case FallbackStart =>
      if !site.fallback && FallbackActs(s) then Some(site.(fallback := true)) else None
    case FallbackRemove(c, rest, written, freed) =>
      if site.fallback && site.accounting == Settled && Removable(s, elected, c, rest) then
        Some(site.(disk := Removed(s, c, rest, written), accounting := if freed == 0 then Settled else Owed(freed)))
      else None
    case FallbackRead =>
      if site.accounting.Owed? then Some(site.(accounting := Read(s.sentinel, site.accounting.freed))) else None
    case FallbackRecord =>
      if site.accounting.Read? then
        var told := if site.accounting.total.Some? then Decrement(site.accounting.total, site.accounting.freed) else s.sentinel;
        Some(site.(disk := s.(sentinel := told), accounting := Settled))
      else None
    case FallbackEnd => Some(site.(fallback := false, accounting := Settled))
    case Recount => Some(site.(disk := s.(sentinel := Some(Total(s)))))
    case DeleteFlag => Some(site.(disk := s.(flag := false)))
    case Reprocess(renewed) => Some(site.(disk := renewed.(flag := s.flag)))
  }

  /** A run: each step names an event and an action that can happen there. */
  function Run(st: State, elected: set<Class>, steps: seq<(string, Action)>): Option<State>
  {
    if steps == [] then Some(st)
    else
      match Run(st, elected, steps[..|steps| - 1])
      case None => None
      case Some(before) =>
        var (event, a) := steps[|steps| - 1];
        if event !in before then None
        else
          match Act(before[event], elected, a)
          case None => None
          case Some(site) => Some(before[event := site])
  }

  /**
   What the protocol relies on and does not enforce: no fallback deletion is still to be accounted
   when the arm writes the sentinel, and new artifacts come only while the event has neither a
   flag nor an arm at work.
   */
  predicate Orderly(site: Site, a: Action) {
    && (a.WriteSentinel? ==> site.accounting == Settled)
    && (a.Reprocess? ==> !site.disk.flag && site.phase == Idle)
  }

  /** Every step of the run is orderly where it is taken. */
  predicate OrderlyRun(st: State, elected: set<Class>, steps: seq<(string, Action)>)
    requires Run(st, elected, steps).Some?
  {
    steps == [] ||
    (var front, (event, a) := steps[..|steps| - 1], steps[|steps| - 1];
     OrderlyRun(st, elected, front) && Orderly(Run(st, elected, front).value[event], a))
  }

  /** What is known of a site at every moment. */
  ghost predicate SiteOk(site: Site, elected: set<Class>) {
    var s := site.disk;
    && (s.flag || site.phase == Recorded ==>
          AllReclaimed(s, elected) && s.sentinel == Some(Total(s)) && site.accounting == Settled)
    && (site.phase.Reclaiming? ==>
          site.phase.done <= |ORDER|
          && forall k | 0 <= k < site.phase.done && ORDER[k] in elected :: Reclaimed(s, ORDER[k]))
  }

  lemma ActKeepsOk(site: Site, elected: set<Class>, a: Action)
    requires SiteOk(site, elected) && Act(site, elected, a).Some? && Orderly(site, a)
    ensures SiteOk(Act(site, elected, a).value, elected)
  {
    var s := site.disk;
    match a {
      case ReclaimNext =>
        ReclaimNextKeepsOk(site, elected);
      case RemovePart(c, rest, written, _) =>
        OrderDistinct();
      case FallbackRemove(c, rest, written, _) =>
        RemovingKeepsReclaimed(s, elected, c, rest, written);
      case WriteSentinel =>
        forall c | c in elected ensures Reclaimed(s, c) {
          OrderCoversAll(c);
          var k :| 0 <= k < |ORDER| && ORDER[k] == c;
        }
      case _ =>
    }
  }

  lemma OrderDistinct()
    ensures forall i, j | 0 <= i < j < |ORDER| :: ORDER[i] != ORDER[j]
  {
  }

  /** A reclaimed class has nothing left to remove, so removing bytes of another leaves it reclaimed. */
  lemma RemovingKeepsReclaimed(s: Scenario, elected: set<Class>, c: Class, rest: Artifact, written: nat)
    requires Removable(s, elected, c, rest)
    ensures !Reclaimed(s, c)
    ensures forall d | d in s.artifacts && Reclaimed(s, d) :: Reclaimed(Removed(s, c, rest, written), d)
  {
  }

  lemma ReclaimNextKeepsOk(site: Site, elected: set<Class>)
    requires SiteOk(site, elected) && site.phase.Reclaiming? && site.phase.done < |ORDER|
    ensures SiteOk(Act(site, elected, ReclaimNext).value, elected)
  {
    var s, c := site.disk, ORDER[site.phase.done];
    var r := ReclaimClass(s, elected, c);
    if s.flag && c in elected { assert Reclaimed(s, c); }
  }

  /** Over every orderly run: a flag means its reclaim is complete and the sentinel is the total on disk. */
  lemma {:induction false} FlagMeansReclaimed(st: State, elected: set<Class>, steps: seq<(string, Action)>, event: string)
    requires forall e | e in st :: SiteOk(st[e], elected)
    requires Run(st, elected, steps).Some? && event in Run(st, elected, steps).value && OrderlyRun(st, elected, steps)
    ensures SiteOk(Run(st, elected, steps).value[event], elected)
    ensures var s := Run(st, elected, steps).value[event].disk;
            s.flag ==> AllReclaimed(s, elected) && s.sentinel == Some(Total(s))
    decreases |steps|
  {
    if steps != [] {
      hide Act, Orderly;
      var front := steps[..|steps| - 1];
      var before := Run(st, elected, front).value;
      var (e, a) := steps[|steps| - 1];
      if event == e {
        FlagMeansReclaimed(st, elected, front, e);
        ActKeepsOk(before[e], elected, a);
      } else {
        FlagMeansReclaimed(st, elected, front, event);
      }
    }
  }

  /** A flag that was not there at the start was written by an arm that had recorded the sentinel after its whole reclaim. */
  lemma {:induction false} FlagHasItsArm(st: State, elected: set<Class>, steps: seq<(string, Action)>, event: string)
    returns (n: nat)
    requires forall e | e in st :: SiteOk(st[e], elected)
    requires Run(st, elected, steps).Some? && OrderlyRun(st, elected, steps) && event in st && !st[event].disk.flag
    requires event in Run(st, elected, steps).value && Run(st, elected, steps).value[event].disk.flag
    ensures n < |steps| && steps[n] == (event, WriteFlag)
    ensures var before := Run(st, elected, steps[..n]);
            && before.Some? && event in before.value && before.value[event].phase == Recorded
            && AllReclaimed(before.value[event].disk, elected)
            && before.value[event].disk.sentinel == Some(Total(before.value[event].disk))
    decreases |steps|
  {
    var m := |steps| - 1;
    var front := steps[..m];
    var before := Run(st, elected, front).value;
    RunKeepsEvents(st, elected, front, event);
    hide Act;
    if before[event].disk.flag {
      n := FlagHasItsArm(st, elected, front, event);
      assert front[..n] == steps[..n];
    } else {
      n := m;
      var (e, a) := steps[m];
      OnlyWriteFlagSets(before[event], elected, a);
      FlagMeansReclaimed(st, elected, front, event);
    }
  }

  lemma OnlyWriteFlagSets(site: Site, elected: set<Class>, a: Action)
    requires Act(site, elected, a).Some? && !site.disk.flag && Act(site, elected, a).value.disk.flag
    ensures a == WriteFlag && site.phase == Recorded
  {
  }

  // ----- why the run has to be orderly

  /**
   The fallback has deleted the last bytes of an event and has not read the sentinel yet; the arm,
   with nothing left to remove, records the total, and only then does the fallback's decrement
   arrive. The flag is written over a sentinel that is right exactly when nothing was owed after all
   or nothing is left to take off.
   */
  lemma LateAccounting(site: Site, elected: set<Class>)
    requires site.phase == Reclaiming(|ORDER|) && site.accounting.Owed?
    ensures var late := [WriteSentinel, FallbackRead, FallbackRecord, WriteFlag];
            && ActAll(site, elected, late).Some?
            && var s := ActAll(site, elected, late).value.disk;
               && s.flag && Total(s) == Total(site.disk)
               && (s.sentinel == Some(Total(s)) <==> site.accounting.freed == 0 || Total(s) == 0)
  {
    var s, freed := site.disk, site.accounting.freed;
    var late := [WriteSentinel, FallbackRead, FallbackRecord, WriteFlag];
    var recorded := s.(sentinel := Some(Total(s)));
    SentinelNotCounted(s, Some(Total(s)), false);
    var told := recorded.(sentinel := Decrement(Some(Total(s)), freed));
    SentinelNotCounted(s, told.sentinel, true);
    var s1 := site.(disk := recorded, phase := Recorded);
    var s2 := s1.(accounting := Read(Some(Total(s)), freed));
    var s3 := s2.(disk := told, accounting := Settled);
    var s4 := s3.(disk := told.(flag := true), phase := Idle);
    assert Act(site, elected, WriteSentinel) == Some(s1) && Act(s1, elected, FallbackRead) == Some(s2);
    assert Act(s2, elected, FallbackRecord) == Some(s3) && Act(s3, elected, WriteFlag) == Some(s4);
    hide Act, Total;
    ActNext(site, elected, late, s1);
    ActNext(s1, elected, late[1..], s2);
    ActNext(s2, elected, late[2..], s3);
    ActNext(s3, elected, late[3..], s4);
  }

  /**
   Here the fallback has read the sentinel already. What it writes back over the arm's is what it had
   read less what it freed, and that is right exactly when it happens to be the total.
   */
  lemma StaleReading(site: Site, elected: set<Class>)
    requires site.phase == Reclaiming(|ORDER|) && site.accounting.Read?
    ensures var late, read := [WriteSentinel, FallbackRecord, WriteFlag], site.accounting;
            && ActAll(site, elected, late).Some?
            && var s := ActAll(site, elected, late).value.disk;
               && s.flag && Total(s) == Total(site.disk)
               && (s.sentinel == Some(Total(s)) <==> read.total.None? || Decrement(read.total, read.freed) == Some(Total(site.disk)))
  {
    var s, read := site.disk, site.accounting;
    var late := [WriteSentinel, FallbackRecord, WriteFlag];
    var recorded := s.(sentinel := Some(Total(s)));
    SentinelNotCounted(s, recorded.sentinel, false);
    var told := recorded.(sentinel := if read.total.Some? then Decrement(read.total, read.freed) else recorded.sentinel);
    SentinelNotCounted(s, told.sentinel, true);
    var s1 := site.(disk := recorded, phase := Recorded);
    var s2 := s1.(disk := told, accounting := Settled);
    var s3 := s2.(disk := told.(flag := true), phase := Idle);
    assert Act(site, elected, WriteSentinel) == Some(s1) && Act(s1, elected, FallbackRecord) == Some(s2);
    assert Act(s2, elected, WriteFlag) == Some(s3);
    hide Act, Total, Decrement;
    ActNext(site, elected, late, s1);
    ActNext(s1, elected, late[1..], s2);
    ActNext(s2, elected, late[2..], s3);
  }

  /** When the flag is written makes no difference to what the late steps leave. */
  lemma FlagMayComeFirst(site: Site, elected: set<Class>, step: Action)
    requires site.phase == Recorded && (step == FallbackRead || step == FallbackRecord)
    ensures ActAll(site, elected, [WriteFlag, step]) == ActAll(site, elected, [step, WriteFlag])
  {
    BothSteps(site, elected, WriteFlag, step);
    BothSteps(site, elected, step, WriteFlag);
  }

  lemma BothSteps(site: Site, elected: set<Class>, first: Action, second: Action)
    ensures ActAll(site, elected, [first, second])
         == match Act(site, elected, first)
            case Some(next) => Act(next, elected, second)
            case None => None
  {
    hide Act;
    var both := [first, second];
    assert both[0] == first && both[1..] == [second] && both[1..][1..] == [];
    assert forall site': Site :: ActAll(site', elected, []) == Some(site');
  }

  lemma ActNext(site: Site, elected: set<Class>, actions: seq<Action>, next: Site)
    requires actions != [] && Act(site, elected, actions[0]) == Some(next)
    ensures ActAll(site, elected, actions) == ActAll(next, elected, actions[1..])
  {
  }

  lemma SentinelNotCounted(s: Scenario, sentinel: Option<nat>, flag: bool)
    ensures Total(s.(sentinel := sentinel)) == Total(s) == Total(s.(sentinel := sentinel, flag := flag))
  {
  }

  /** A run at one event. */
  function ActAll(site: Site, elected: set<Class>, actions: seq<Action>): Option<Site>
    decreases |actions|
  {
    if actions == [] then Some(site)
    else
      match Act(site, elected, actions[0])
      case Some(next) => ActAll(next, elected, actions[1..])
      case None => None
  }

  /** A truncation-free report of five bytes, the only elected class, and an exact sentinel. */
  const REPORTED := Site(Scenario(map[HydroOut := Artifact(0, 0, 0, 0), PrepInputs := Artifact(0, 0, 0, 0),
                                      Hydrographs := Artifact(0, 0, 0, 0), StandaloneRpt := Artifact(5, 0, 0, 0)],
                                  1, Some(6), false, true),
                         Idle, false, Settled)

  /** The arm passes the first three classes, the fallback deletes the last one, and the arm finds nothing left in it. */
  const OVERTAKEN: seq<Action> :=
    [StartArm, ReclaimNext, ReclaimNext, ReclaimNext,
     FallbackStart, FallbackRemove(StandaloneRpt, Artifact(0, 0, 0, 0), 0, 5), ReclaimNext]

  /** So the schedule exists: from a state in order, a flag over a sentinel that is not the total. */
  lemma OvertakenArm()
    ensures SiteOk(REPORTED, {StandaloneRpt})
    ensures var end := ActAll(REPORTED, {StandaloneRpt}, OVERTAKEN + [WriteSentinel, FallbackRead, FallbackRecord, WriteFlag]);
            end.Some? && end.value.disk.flag && end.value.disk.sentinel != Some(Total(end.value.disk))
  {
    var elected, late := {StandaloneRpt}, [WriteSentinel, FallbackRead, FallbackRecord, WriteFlag];
    var all := OVERTAKEN + late;
    var owing := Site(Emptied(), Reclaiming(4), true, Owed(5));
    ThreePassed(REPORTED, elected, all);
    FourthEmptied(all[4..]);
    assert all[4..][3..] == late;
    LateAccounting(owing, elected);
  }

  /** With the sentinel read before the arm writes its own the same schedule ends well, though it is no orderly one either. */
  lemma ReadInTime()
    ensures var end := ActAll(REPORTED, {StandaloneRpt}, OVERTAKEN + [FallbackRead, WriteSentinel, FallbackRecord, WriteFlag]);
            end.Some? && end.value.disk.flag && end.value.disk.sentinel == Some(Total(end.value.disk))
    ensures !Orderly(Site(Emptied(), Reclaiming(4), true, Read(Some(6), 5)), WriteSentinel)
  {
    var elected, late := {StandaloneRpt}, [FallbackRead, WriteSentinel, FallbackRecord, WriteFlag];
    var all := OVERTAKEN + late;
    var owing, read := Site(Emptied(), Reclaiming(4), true, Owed(5)), Site(Emptied(), Reclaiming(4), true, Read(Some(6), 5));
    ThreePassed(REPORTED, elected, all);
    FourthEmptied(all[4..]);
    assert all[4..][3..] == late;
    OneReading(owing, elected);
    hide Act, Total, Emptied, REPORTED, OVERTAKEN;
    ActNext(owing, elected, late, read);
    assert late[1..] == [WriteSentinel, FallbackRecord, WriteFlag];
    EmptiedTotal();
    StaleReading(read, elected);
  }

  lemma OneReading(owing: Site, elected: set<Class>)
    requires owing == Site(Emptied(), Reclaiming(4), true, Owed(5))
    ensures Act(owing, elected, FallbackRead) == Some(Site(Emptied(), Reclaiming(4), true, Read(Some(6), 5)))
  {
  }

  lemma EmptiedTotal()
    ensures Total(Emptied()) == 1 && |ORDER| == 4
  {
  }

  /** An arm goes through the classes it was not asked to reclaim without touching anything. */
  lemma ThreePassed(site: Site, elected: set<Class>, actions: seq<Action>)
    requires site.phase == Idle && |actions| >= 4 && actions[..4] == [StartArm, ReclaimNext, ReclaimNext, ReclaimNext]
    requires forall i | 0 <= i < 3 :: ORDER[i] !in elected
    ensures ActAll(site, elected, actions) == ActAll(site.(phase := Reclaiming(3)), elected, actions[4..])
  {
    assert forall i | 0 <= i < 4 :: actions[i] == actions[..4][i];
    var s0, s1, s2, s3 :=
      site.(phase := Reclaiming(0)), site.(phase := Reclaiming(1)), site.(phase := Reclaiming(2)), site.(phase := Reclaiming(3));
    OnePassed(s0, elected);
    OnePassed(s1, elected);
    OnePassed(s2, elected);
    assert Act(site, elected, StartArm) == Some(s0);
    hide Act, ORDER;
    ActNext(site, elected, actions, s0);
    ActNext(s0, elected, actions[1..], s1);
    ActNext(s1, elected, actions[2..], s2);
    ActNext(s2, elected, actions[3..], s3);
  }

  lemma OnePassed(site: Site, elected: set<Class>)
    requires site.phase.Reclaiming? && site.phase.done < |ORDER| && ORDER[site.phase.done] !in elected
    ensures Act(site, elected, ReclaimNext) == Some(site.(phase := Reclaiming(site.phase.done + 1)))
  {
  }

  function Emptied(): Scenario {
    REPORTED.disk.(artifacts := REPORTED.disk.artifacts[StandaloneRpt := Artifact(0, 0, 0, 0)])
  }

  lemma FourthEmptied(actions: seq<Action>)
    requires |actions| >= 3
    requires actions[..3] == [FallbackStart, FallbackRemove(StandaloneRpt, Artifact(0, 0, 0, 0), 0, 5), ReclaimNext]
    ensures ActAll(REPORTED.(phase := Reclaiming(3)), {StandaloneRpt}, actions)
         == ActAll(Site(Emptied(), Reclaiming(4), true, Owed(5)), {StandaloneRpt}, actions[3..])
  {
    var elected := {StandaloneRpt};
    assert forall i | 0 <= i < 3 :: actions[i] == actions[..3][i];
    var third := REPORTED.(phase := Reclaiming(3));
    var begun := third.(fallback := true);
    var gone := Site(Emptied(), Reclaiming(3), true, Owed(5));
    assert Act(third, elected, FallbackStart) == Some(begun);
    assert Act(begun, elected, actions[1]) == Some(gone);
    assert Act(gone, elected, ReclaimNext) == Some(gone.(phase := Reclaiming(4)));
    hide Act;
    ActNext(third, elected, actions, begun);
    ActNext(begun, elected, actions[1..], gone);
    ActNext(gone, elected, actions[2..], gone.(phase := Reclaiming(4)));
  }

  lemma {:induction false} RunKeepsEvents(st: State, elected: set<Class>, steps: seq<(string, Action)>, event: string)
    requires Run(st, elected, steps).Some? && event in st
    ensures event in Run(st, elected, steps).value
    decreases |steps|
  {
    if steps != [] { RunKeepsEvents(st, elected, steps[..|steps| - 1], event); }
  }

  // ----- the arms as programs

  /** What an uninterrupted scenario arm leaves behind. */
  function ArmResult(s: Scenario, elected: set<Class>): Scenario {
    var r := ReclaimScenario(s, elected);
    r.(sentinel := Some(Total(r)), flag := true)
  }

  function ArmSteps(event: string, n: nat): seq<(string, Action)> {
    if n == 0 then [(event, StartArm)] else ArmSteps(event, n - 1) + [(event, ReclaimNext)]
  }

  lemma {:induction false} ArmReclaims(st: State, elected: set<Class>, event: string, n: nat)
    requires event in st && st[event].phase == Idle && n <= |ORDER|
    ensures Run(st, elected, ArmSteps(event, n))
         == Some(st[event := st[event].(disk := ReclaimUpTo(st[event].disk, elected, n), phase := Reclaiming(n))])
    decreases n
  {
    var site := st[event];
    var disk := site.disk;
    if n == 0 {
      RunStep(st, elected, [], st, event, StartArm);
      assert [] + [(event, StartArm)] == ArmSteps(event, 0);
    } else {
      ArmReclaims(st, elected, event, n - 1);
      var before := st[event := site.(disk := ReclaimUpTo(disk, elected, n - 1), phase := Reclaiming(n - 1))];
      RunStep(st, elected, ArmSteps(event, n - 1), before, event, ReclaimNext);
      Overwrite(st, event, before[event], site.(disk := ReclaimUpTo(disk, elected, n), phase := Reclaiming(n)));
    }
  }

  lemma RunStep(st: State, elected: set<Class>, front: seq<(string, Action)>, before: State, event: string, a: Action)
    requires Run(st, elected, front) == Some(before) && event in before && Act(before[event], elected, a).Some?
    ensures Run(st, elected, front + [(event, a)]) == Some(before[event := Act(before[event], elected, a).value])
  {
    var steps := front + [(event, a)];
    assert steps[..|steps| - 1] == front && steps[|steps| - 1] == (event, a);
  }

  lemma Overwrite(st: State, event: string, x: Site, y: Site)
    ensures st[event := x][event := y] == st[event := y]
  {
  }

  /** The machine's steps, taken without a crash, leave what the program leaves. */
  lemma ArmRunsToResult(st: State, elected: set<Class>, event: string)
    requires event in st && st[event].phase == Idle
    ensures Run(st, elected, ArmSteps(event, |ORDER|) + [(event, WriteSentinel)] + [(event, WriteFlag)])
         == Some(st[event := st[event].(disk := ArmResult(st[event].disk, elected))])
  {
    var arm := ArmSteps(event, |ORDER|);
    var r := ReclaimScenario(st[event].disk, elected);
    var reclaimed := st[event].(disk := r, phase := Reclaiming(|ORDER|));
    var recorded := st[event].(disk := r.(sentinel := Some(Total(r))), phase := Recorded);
    ArmReclaims(st, elected, event, |ORDER|);
    RunStep(st, elected, arm, st[event := reclaimed], event, WriteSentinel);
    Overwrite(st, event, reclaimed, recorded);
    RunStep(st, elected, arm + [(event, WriteSentinel)], st[event := recorded], event, WriteFlag);
    Overwrite(st, event, recorded, st[event].(disk := ArmResult(st[event].disk, elected)));
  }

  /** The classes an interrupted reclaim had gone through make no difference to the next one. */
  lemma {:induction false} ReclaimResumes(s: Scenario, elected: set<Class>, n: nat, m: nat)
    requires n <= m <= |ORDER|
    ensures ReclaimUpTo(ReclaimUpTo(s, elected, n), elected, m) == ReclaimUpTo(s, elected, m)
    decreases m
  {
    if m == n {
      ReclaimUpToAgain(s, elected, n);
    } else {
      ReclaimResumes(s, elected, n, m - 1);
    }
  }

  lemma ReclaimUpToAgain(s: Scenario, elected: set<Class>, n: nat)
    requires n <= |ORDER|
    ensures ReclaimUpTo(ReclaimUpTo(s, elected, n), elected, n) == ReclaimUpTo(s, elected, n)
  {
    var r := ReclaimUpTo(s, elected, n);
    ReclaimUpToHolds(s, elected, n);
    DoneStays(r, elected, n);
  }

  lemma {:induction false} DoneStays(r: Scenario, elected: set<Class>, n: nat)
    requires n <= |ORDER| && forall k | 0 <= k < n && ORDER[k] in elected :: Reclaimed(r, ORDER[k])
    ensures ReclaimUpTo(r, elected, n) == r
  {
    if n > 0 { DoneStays(r, elected, n - 1); }
  }

  /** An arm that crashes between two classes and is run again leaves what an arm without a crash leaves. */
  lemma CrashRecovers(st: State, elected: set<Class>, event: string, n: nat)
    requires event in st && st[event].phase == Idle && n <= |ORDER|
    ensures var crashed := Run(st, elected, ArmSteps(event, n) + [(event, Crash)]);
            && crashed.Some? && event in crashed.value && crashed.value[event].phase == Idle
            && Run(crashed.value, elected, ArmSteps(event, |ORDER|) + [(event, WriteSentinel)] + [(event, WriteFlag)])
               == Some(st[event := st[event].(disk := ArmResult(st[event].disk, elected))])
  {
    var site := st[event];
    var partly := site.(disk := ReclaimUpTo(site.disk, elected, n), phase := Reclaiming(n));
    var stopped := partly.(phase := Idle);
    ArmReclaims(st, elected, event, n);
    RunStep(st, elected, ArmSteps(event, n), st[event := partly], event, Crash);
    Overwrite(st, event, partly, stopped);
    var crashed := st[event := stopped];
    ArmRunsToResult(crashed, elected, event);
    ReclaimResumes(site.disk, elected, n, |ORDER|);
    assert ReclaimScenario(stopped.disk, elected) == ReclaimScenario(site.disk, elected);
    Overwrite(st, event, stopped, site.(disk := ArmResult(site.disk, elected)));
  }

  /** A recount puts the sentinel right at any moment, and touches nothing else. */
  lemma RecountRepairs(site: Site, elected: set<Class>)
    ensures var r := Act(site, elected, Recount);
            && r.Some? && r.value == site.(disk := r.value.disk)
            && r.value.disk == site.disk.(sentinel := Some(Total(r.value.disk))) && Total(r.value.disk) == Total(site.disk)
  {
    SentinelNotCounted(site.disk, Some(Total(site.disk)), site.disk.flag);
  }

  /** Without its flag an event with summaries is the fallback's again, whatever the arm had done. */
  lemma RerunReopens(site: Site, elected: set<Class>)
    requires !site.fallback
    ensures var opened_ := Act(site, elected, DeleteFlag);
            && opened_.Some? && opened_.value.disk.artifacts == site.disk.artifacts && Total(opened_.value.disk) == Total(site.disk)
            && (Act(opened_.value, elected, FallbackStart).Some? <==> site.disk.summaries)
            && (site.disk.flag ==> Act(site, elected, FallbackStart) == None)
  {
    hide ReclaimClass, Decrement;
  }

  /** A fallback that crashes behind a deletion never tells the sentinel of it: an exact one ends off by what was deleted and written. */
  lemma CrashForgets(site: Site, elected: set<Class>, c: Class, rest: Artifact, written: nat, freed: nat)
    requires site.fallback && site.accounting == Settled && Removable(site.disk, elected, c, rest)
    requires Sound(site.disk) && site.disk.sentinel == Some(Total(site.disk))
    ensures var r := ActAll(site, elected, [FallbackRemove(c, rest, written, freed), FallbackEnd]);
            && r.Some? && r.value.accounting == Settled && !r.value.fallback
            && r.value.disk.sentinel == site.disk.sentinel
            && Total(r.value.disk) == Total(site.disk) - (site.disk.artifacts[c].size - rest.size) + written
  {
    BothSteps(site, elected, FallbackRemove(c, rest, written, freed), FallbackEnd);
    RemovedTotal(site.disk, c, rest, written);
  }

  lemma RemovedTotal(s: Scenario, c: Class, rest: Artifact, written: nat)
    requires c in s.artifacts && rest.size <= s.artifacts[c].size
    ensures Total(Removed(s, c, rest, written)) == Total(s) - (s.artifacts[c].size - rest.size) + written
  {
    match c { case HydroOut => case PrepInputs => case Hydrographs => case StandaloneRpt => }
  }

  class Campaign {
    var scenarios: map<string, Scenario>

    constructor (scenarios: map<string, Scenario>)
      ensures this.scenarios == scenarios
    {
      this.scenarios := scenarios;
    }

    /** One pass of the reclaim over one scenario directory. */
    method ReclaimOne(event: string, elected: set<Class>)
      requires event in scenarios
      modifies this
      ensures scenarios == old(scenarios)[event := ReclaimScenario(old(scenarios)[event], elected)]
    {
      var s := scenarios[event];
      for i := 0 to |ORDER|
        invariant s == ReclaimUpTo(old(scenarios)[event], elected, i)
        invariant scenarios == old(scenarios)
      {
        s := ReclaimClass(s, elected, ORDER[i]);
      }
      scenarios := scenarios[event := s];
    }

    /** The `--event-id` arm: exit 1 with nothing written when it must decline, else reclaim, sentinel, flag. */
    method ConsolidateScenario(event: string, ilocPassed: bool, elected: set<Class>) returns (code: int)
      modifies this
      ensures event !in old(scenarios) || (elected != {} && !ilocPassed) ==> code == 1 && scenarios == old(scenarios)
      ensures event in old(scenarios) && (elected == {} || ilocPassed) ==>
                code == 0 && scenarios == old(scenarios)[event := ArmResult(old(scenarios)[event], elected)]
    {
      if event !in scenarios {
        return 1;
      }
      if elected != {} && !ilocPassed {
        return 1;
      }
      if elected != {} {
        ReclaimOne(event, elected);
      } else {
        ReclaimUpToHolds(scenarios[event], elected, |ORDER|);
      }
      var s := scenarios[event];
      s := s.(sentinel := Some(Total(s)));
      scenarios := scenarios[event := s];
      scenarios := scenarios[event := s.(flag := true)];
      return 0;
    }

    /** The fallback loop over the full event set. */
    method ReclaimUnconsolidated(events: seq<string>, elected: set<Class>) returns (acted: set<string>)
      requires forall e | e in events :: e in scenarios
      modifies this
      ensures scenarios == FallbackAll(old(scenarios), events, elected)
      ensures acted == set e | e in events && FallbackActs(old(scenarios)[e])
    {
      hide ReclaimScenario;
      acted := {};
      for i := 0 to |events|
        invariant scenarios == FallbackAll(old(scenarios), events[..i], elected)
        invariant scenarios.Keys == old(scenarios).Keys
        invariant forall e | e in scenarios :: FallbackActs(scenarios[e]) <==> FallbackActs(old(scenarios)[e])
        invariant acted == set e | e in events[..i] && FallbackActs(old(scenarios)[e])
      {
        assert events[..i + 1] == events[..i] + [events[i]];
        assert events[..i + 1][..i] == events[..i];
        var event := events[i];
        if scenarios[event].flag {
          continue;
        }
        if !scenarios[event].summaries {
          continue;
        }
        ReclaimKeepsMarks(scenarios[event], elected);
        ReclaimOne(event, elected);
        acted := acted + {event};
      }
      assert events[..|events|] == events;
    }

    /** The member arm: re-derive every scenario's sentinel, then sum them with the member's own files. */
    method ConsolidateMember(dirs: seq<string>, ownBytes: nat) returns (total: nat, absent: nat)
      requires forall e | e in dirs :: e in scenarios
      modifies this
      ensures scenarios.Keys == old(scenarios).Keys
      ensures forall e | e in scenarios ::
                scenarios[e] == if e in dirs then old(scenarios)[e].(sentinel := Some(Total(old(scenarios)[e]))) else old(scenarios)[e]
      ensures total == SumTotals(old(scenarios), dirs) + ownBytes && absent == 0
    {
      for i := 0 to |dirs|
        invariant scenarios.Keys == old(scenarios).Keys
        invariant forall e | e in scenarios ::
                    scenarios[e] == if e in dirs[..i] then old(scenarios)[e].(sentinel := Some(Total(old(scenarios)[e]))) else old(scenarios)[e]
      {
        var s := scenarios[dirs[i]];
        scenarios := scenarios[dirs[i] := s.(sentinel := Some(Total(s)))];
        assert dirs[..i + 1] == dirs[..i] + [dirs[i]];
      }
      assert dirs[..|dirs|] == dirs;
      total, absent := SumChildSentinels(dirs, ownBytes);
      AllPresent(old(scenarios), scenarios, dirs);
    }

    /** Sum the children's sentinels; a child without one is counted as absent and adds nothing. */
    method SumChildSentinels(dirs: seq<string>, ownBytes: nat) returns (total: nat, absent: nat)
      requires forall e | e in dirs :: e in scenarios
      ensures total == SumSentinels(scenarios, dirs).0 + ownBytes && absent == SumSentinels(scenarios, dirs).1
    {
      total, absent := 0, 0;
      for i := 0 to |dirs|
        invariant (total, absent) == SumSentinels(scenarios, dirs[..i])
      {
        assert dirs[..i + 1][..i] == dirs[..i];
        match scenarios[dirs[i]].sentinel {
          case Some(t) => total := total + t;
          case None => absent := absent + 1;
        }
      }
      assert dirs[..|dirs|] == dirs;
      total := total + ownBytes;
    }
  }

  // ----- the fallback loop

  function FallbackAll(scenarios: map<string, Scenario>, events: seq<string>, elected: set<Class>): (r: map<string, Scenario>)
    ensures r.Keys == scenarios.Keys
  {
    if events == [] then scenarios
    else
      var n := |events| - 1;
      var before := FallbackAll(scenarios, events[..n], elected);
      var e := events[n];
      if e in before && FallbackActs(before[e]) then before[e := ReclaimScenario(before[e], elected)] else before
  }

  /** The loop reclaims exactly the events with no flag and with summaries present; every other scenario is left as it was. */
  lemma {:induction false} FallbackExact(scenarios: map<string, Scenario>, events: seq<string>, elected: set<Class>, e: string)
    requires e in scenarios
    ensures FallbackAll(scenarios, events, elected)[e]
         == if e in events && FallbackActs(scenarios[e]) then ReclaimScenario(scenarios[e], elected) else scenarios[e]
    decreases |events|
  {
    if events != [] {
      var n := |events| - 1;
      FallbackExact(scenarios, events[..n], elected, e);
      assert events == events[..n] + [events[n]];
      ReclaimUpToHolds(scenarios[e], elected, |ORDER|);
      ReclaimIsComplete(scenarios[e], elected);
    }
  }

  /** A reclaim changes nothing exactly when every elected class is down to what it keeps. */
  lemma NothingToReclaim(s: Scenario, elected: set<Class>)
    ensures ReclaimScenario(s, elected) == s <==> AllReclaimed(s, elected)
  {
    ReclaimUpToHolds(s, elected, |ORDER|);
    ReclaimIsComplete(s, elected);
  }

  /**
   The loop does nothing exactly when every event it may act on, unflagged and with summaries, is
   already down to what its elected classes keep; in particular when every event with summaries
   has its flag.
   */
  lemma FallbackNoOp(scenarios: map<string, Scenario>, events: seq<string>, elected: set<Class>)
    requires forall e | e in events :: e in scenarios
    ensures FallbackAll(scenarios, events, elected) == scenarios
       <==> forall e | e in events && !scenarios[e].flag && scenarios[e].summaries :: AllReclaimed(scenarios[e], elected)
    ensures (forall e | e in events && scenarios[e].summaries :: scenarios[e].flag)
            ==> FallbackAll(scenarios, events, elected) == scenarios
  {
    hide ReclaimScenario, AllReclaimed;
    var after := FallbackAll(scenarios, events, elected);
    forall e | e in scenarios
      ensures after[e] == if e in events && FallbackActs(scenarios[e]) then ReclaimScenario(scenarios[e], elected) else scenarios[e]
      ensures ReclaimScenario(scenarios[e], elected) == scenarios[e] <==> AllReclaimed(scenarios[e], elected)
    {
      FallbackExact(scenarios, events, elected, e);
      NothingToReclaim(scenarios[e], elected);
    }
  }

  /** A processed event whose arm has not run: summaries present, no flag, a hydrology output still on disk. */
  const WAITING := Scenario(map[HydroOut := Artifact(5, 0, 0, 0), PrepInputs := Artifact(0, 0, 0, 0),
                                Hydrographs := Artifact(0, 0, 0, 0), StandaloneRpt := Artifact(0, 0, 0, 0)],
                            1, Some(6), false, true)

  /** On such an event the loop is no no-op. */
  lemma WaitingIsReclaimed(event: string)
    ensures FallbackAll(map[event := WAITING], [event], {HydroOut}) != map[event := WAITING]
  {
    assert HydroOut in WAITING.artifacts && !Reclaimed(WAITING, HydroOut);
    FallbackNoOp(map[event := WAITING], [event], {HydroOut});
    assert event in [event];
  }

  // ----- totals

  function SumTotals(scenarios: map<string, Scenario>, dirs: seq<string>): nat
    requires forall e | e in dirs :: e in scenarios
  {
    if dirs == [] then 0 else SumTotals(scenarios, dirs[..|dirs| - 1]) + Total(scenarios[dirs[|dirs| - 1]])
  }

  /** The disk usage of directories one after another adds up. */
  lemma {:induction false} TotalsAdd(scenarios: map<string, Scenario>, a: seq<string>, b: seq<string>)
    requires (forall e | e in a :: e in scenarios) && forall e | e in b :: e in scenarios
    ensures SumTotals(scenarios, a + b) == SumTotals(scenarios, a) + SumTotals(scenarios, b)
    ensures |a| == 1 ==> SumTotals(scenarios, a) == Total(scenarios[a[0]])
    ensures SumSentinels(scenarios, a + b).0 == SumSentinels(scenarios, a).0 + SumSentinels(scenarios, b).0
    ensures SumSentinels(scenarios, a + b).1 == SumSentinels(scenarios, a).1 + SumSentinels(scenarios, b).1
    ensures |a| == 1 ==> SumSentinels(scenarios, a) == match scenarios[a[0]].sentinel
                                                       case Some(t) => (t, 0)
                                                       case None => (0, 1)
    decreases |b|
  {
    hide Total;
    if |a| == 1 {
      var none: seq<string> := [];
      assert a[..0] == none && SumTotals(scenarios, none) == 0 && SumSentinels(scenarios, none) == (0, 0);
    }
    if b == [] {
      assert a + b == a;
    } else {
      var n := |b| - 1;
      assert (a + b)[..|a| + n] == a + b[..n];
      TotalsAdd(scenarios, a, b[..n]);
    }
  }

  /** A directory's total counts what else there is and every byte of every class. */
  lemma TotalExactly(s: Scenario)
    requires Sound(s)
    ensures Total(s) == s.other + s.artifacts[HydroOut].size + s.artifacts[PrepInputs].size
                        + s.artifacts[Hydrographs].size + s.artifacts[StandaloneRpt].size
  {
  }

  /** The sum of the sentinels there are, and the number of children without one. */
  function SumSentinels(scenarios: map<string, Scenario>, dirs: seq<string>): (nat, nat)
    requires forall e | e in dirs :: e in scenarios
  {
    if dirs == [] then (0, 0)
    else
      var n := |dirs| - 1;
      var (total, absent) := SumSentinels(scenarios, dirs[..n]);
      match scenarios[dirs[n]].sentinel
      case Some(t) => (total + t, absent)
      case None => (total, absent + 1)
  }

  lemma {:induction false} AllPresent(before: map<string, Scenario>, after: map<string, Scenario>, dirs: seq<string>)
    requires forall e | e in dirs :: e in before && e in after && after[e].sentinel == Some(Total(before[e]))
    ensures SumSentinels(after, dirs) == (SumTotals(before, dirs), 0)
    decreases |dirs|
  {
    if dirs != [] { AllPresent(before, after, dirs[..|dirs| - 1]); }
  }
}
