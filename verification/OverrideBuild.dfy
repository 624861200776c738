/**
 The generator's loop: regenerate, install, ask the type checker again, until nothing new
 fires. The checker is a value: rules that fire by themselves, and rules that a table of
 suppressions reveals.
 */
module OverrideBuild {
  import opened Wrappers
  import opened OverrideTable
  import opened Text
  import Layout = Lines

  /**
   What fires with no table, what each table reveals besides, and what is reported over a file
   whose table does not say what was meant: a path with a quote or a backslash in it ends its
   string early or reads as an escape.
   */
  datatype Checker = Checker(base: Table, shows: Table -> Table, garbled: string -> Table)

  /** The pairs that fire under a table: base and revealed ones the table does not suppress. */
  function Diagnostics(c: Checker, table: Table): Table {
    (c.base + c.shows(table)) - table
  }

  lemma DiagnosticsExactly(c: Checker, table: Table, p: Pair)
    ensures p in Diagnostics(c, table) <==> (p in c.base || p in c.shows(table)) && p !in table
  {
  }

  /** The pairs collected from a run over the file. */
  function Fired(c: Checker, text: string): Table {
    if AllWritable(TableOf(text)) then Diagnostics(c, TableOf(text)) else c.garbled(text)
  }

  /** The table suppresses everything that fires under it. */
  predicate Closed(c: Checker, table: Table) {
    Diagnostics(c, table) == {}
  }

  /** Suppressing more reveals no less. */
  ghost predicate Monotone(c: Checker) {
    forall s, t | s <= t :: c.shows(s) <= c.shows(t)
  }

  ghost predicate LeastClosed(c: Checker, least: Table) {
    Closed(c, least) && forall s | Closed(c, s) :: least <= s
  }

  /** No path that is ever reported holds a quote, a backslash or a line feed. */
  ghost predicate Speaks(c: Checker) {
    AllWritable(c.base) && (forall s :: AllWritable(c.shows(s))) && forall t :: AllWritable(c.garbled(t))
  }

  const PASSES := 10

  const GAVE_UP := "ty overrides did not converge in 10 passes; investigate revelation"

  // ----- the loop, on the file

  /** The accumulated table, and the file as it stands, after `k` passes. */
  datatype State = State(table: Table, text: string)

  function After(c: Checker, text: string, k: nat): State {
    if k == 0 then State({}, text)
    else
      var before := After(c, text, k - 1);
      var table := before.table + Fired(c, before.text);
      State(table, Splice(before.text, Render(table)))
  }

  /** The first of the passes `k..9` after which a run collects nothing new, if there is one. */
  function FirstStill(c: Checker, text: string, k: nat): Option<nat>
    requires 1 <= k
    decreases PASSES - k
  {
    if k >= PASSES then None
    else if Fired(c, After(c, text, k).text) <= After(c, text, k).table then Some(k)
    else FirstStill(c, text, k + 1)
  }

  /** The result of `build`: the accumulated table and the pass count, or the refusal to converge. */
  function BuiltOn(c: Checker, text: string): Result<(Table, nat), string> {
    match FirstStill(c, text, 1)
    case Some(k) => Ok((After(c, text, k).table, k))
    case None => Err(GAVE_UP)
  }

  /** What stands below the first end marker. */
  function BelowEnd(text: string): string {
    match Cut(text, END_MARKER)
    case Some((_, below)) => below
    case None => ""
  }

  datatype Outcome = ContentBelow | NoConvergence | Stale | Current(passes: nat) | Wrote(passes: nat)

  /** The file with the freshly built region; the file itself when the build gives up. */
  function Proposed(c: Checker, text: string): string {
    match BuiltOn(c, text)
    case Ok((table, _)) => Splice(text, Render(table))
    case Err(_) => text
  }

  function Answer(c: Checker, text: string, check: bool): Outcome {
    if !Layout.Blank(BelowEnd(text)) then ContentBelow
    else
      match BuiltOn(c, text)
      case Err(_) => NoConvergence
      case Ok((_, passes)) =>
        if !check then Wrote(passes) else if Proposed(c, text) != text then Stale else Current(passes)
  }

  /** Something is written below the first end marker of the file. */
  ghost predicate ContentUnder(text: string) {
    exists a, b :: text == a + END_MARKER + b && !Contains(a, END_MARKER) && exists i | 0 <= i < |b| :: !Layout.IsSpace(b[i])
  }

  lemma UnderIsBelow(text: string)
    ensures ContentUnder(text) <==> !Layout.Blank(BelowEnd(text))
  {
    EndMarkerShape();
    hide END_MARKER, Layout.IsSpace, Cut;
    if a, b :| text == a + END_MARKER + b && !Contains(a, END_MARKER) && exists i | 0 <= i < |b| :: !Layout.IsSpace(b[i]) {
      CutAt(a, END_MARKER, b);
    }
    if Cut(text, END_MARKER).Some? {
      var (a, b) := Cut(text, END_MARKER).value;
      CutHeadLacks(text, END_MARKER);
    }
  }

  /** The file is the splice of the freshly built region into itself. */
  predicate UpToDate(c: Checker, text: string) {
    BuiltOn(c, text).Ok? && text == Splice(text, Render(BuiltOn(c, text).value.0))
  }

  /**
   What the command says: it refuses exactly over content below the region, gives up exactly when the
   build does, and otherwise writes, or, when it checks, calls current exactly a file that already is
   what would be written.
   */
  lemma AnswerExactly(c: Checker, text: string)
    ensures var checked, written := Answer(c, text, true), Answer(c, text, false);
            && (checked == ContentBelow <==> ContentUnder(text))
            && (checked == NoConvergence <==> !ContentUnder(text) && BuiltOn(c, text).Err?)
            && (checked.Current? <==> !ContentUnder(text) && UpToDate(c, text))
            && (checked.Stale? <==> !ContentUnder(text) && BuiltOn(c, text).Ok? && !UpToDate(c, text))
            && (checked.Current? ==> checked.passes == BuiltOn(c, text).value.1)
            && (written == ContentBelow <==> ContentUnder(text))
            && (written == NoConvergence <==> !ContentUnder(text) && BuiltOn(c, text).Err?)
            && (BuiltOn(c, text).Ok? && !ContentUnder(text) ==> written == Wrote(BuiltOn(c, text).value.1))
  {
    hide BuiltOn, Splice, Render, ContentUnder, END_MARKER;
    UnderIsBelow(text);
  }

  class Project {
    var text: string

    constructor (text: string)
      ensures this.text == text
    {
      this.text := text;
    }

    /** Run the checker over the file as it stands. */
    method RunTy(c: Checker) returns (fired: Table)
      ensures fired == Fired(c, text)
    {
      fired := Fired(c, text);
    }

    /** Iterate to a fixpoint on the file itself; the file's text is put back on every exit. */
    method Build(c: Checker) returns (r: Result<(string, nat), string>)
      modifies this
      ensures text == old(text)
      ensures r == match BuiltOn(c, old(text))
                   case Ok((table, passes)) => Ok((Render(table), passes))
                   case Err(e) => Err(e)
    {
      hide Render, Splice, Fired, GAVE_UP;
      var accumulated: Table := {};
      var original := text;
      r := Err(GAVE_UP);
      for iteration := 1 to PASSES + 1
        invariant State(accumulated, text) == After(c, original, iteration - 1)
        invariant FirstStill(c, original, 1) == FirstStill(c, original, if iteration <= 2 then 1 else iteration - 1)
        invariant r == Err(GAVE_UP)
      {
        var fired := RunTy(c);
        var revealed := fired - accumulated;
        NothingNew(fired, accumulated);
        if revealed == {} && iteration > 1 {
          r := Ok((Render(accumulated), iteration - 1));
          break;
        }
        accumulated := accumulated + revealed;
        text := Splice(text, Render(accumulated));
      }
      text := original;
    }

    /** The command: refuse to destroy what stands below the region, build, then compare or write. */
    method Generate(c: Checker, check: bool) returns (o: Outcome)
      modifies this
      ensures o == Answer(c, old(text), check)
      ensures text == if o.Wrote? then Proposed(c, old(text)) else old(text)
      ensures o == ContentBelow <==> ContentUnder(old(text))
      ensures check && !ContentUnder(old(text)) ==> (o.Current? <==> UpToDate(c, old(text)))
      ensures check && !ContentUnder(old(text)) ==> (o.Stale? <==> BuiltOn(c, old(text)).Ok? && !UpToDate(c, old(text)))
      ensures !check && !ContentUnder(old(text)) ==> (o.Wrote? <==> BuiltOn(c, old(text)).Ok?)
      ensures o.Wrote? ==> text == Splice(old(text), Render(BuiltOn(c, old(text)).value.0))
    {
      AnswerExactly(c, text);
      hide Render, Splice, BuiltOn, ContentUnder, UpToDate;
      if !Layout.Blank(BelowEnd(text)) {
        return ContentBelow;
      }
      var built := Build(c);
      if built.Err? {
        return NoConvergence;
      }
      var (body, passes) := built.value;
      var proposed := Splice(text, body);
      if check {
        return if proposed != text then Stale else Current(passes);
      }
      text := proposed;
      return Wrote(passes);
    }
  }

  lemma NothingNew(fired: Table, accumulated: Table)
    ensures fired - accumulated == {} <==> fired <= accumulated
    ensures accumulated + (fired - accumulated) == accumulated + fired
  {
  }

  // ----- the same loop on tables

  /** The accumulated table after `k` passes, the first of which collected `first`. */
  function Accumulated(c: Checker, first: Table, k: nat): Table
    requires k >= 1
  {
    if k == 1 then first
    else Accumulated(c, first, k - 1) + Diagnostics(c, Accumulated(c, first, k - 1))
  }

  function FirstClosed(c: Checker, first: Table, k: nat): Option<nat>
    requires 1 <= k
    decreases PASSES - k
  {
    if k >= PASSES then None
    else if Closed(c, Accumulated(c, first, k)) then Some(k)
    else FirstClosed(c, first, k + 1)
  }

  function Built(c: Checker, first: Table): Result<(Table, nat), string> {
    match FirstClosed(c, first, 1)
    case Some(k) => Ok((Accumulated(c, first, k), k))
    case None => Err(GAVE_UP)
  }

  lemma {:induction false} AccumulatedWritable(c: Checker, first: Table, k: nat)
    requires Speaks(c) && AllWritable(first) && k >= 1
    ensures AllWritable(Accumulated(c, first, k))
    decreases k
  {
    if k > 1 { AccumulatedWritable(c, first, k - 1); }
  }

  lemma FiredWritable(c: Checker, text: string)
    requires Speaks(c)
    ensures AllWritable(Fired(c, text))
  {
    hide TableOf;
  }

  lemma AfterStep(c: Checker, text: string, k: nat)
    requires k >= 1
    ensures After(c, text, k).table == After(c, text, k - 1).table + Fired(c, After(c, text, k - 1).text)
    ensures After(c, text, k).text == Splice(After(c, text, k - 1).text, Render(After(c, text, k).table))
    ensures k == 1 ==> After(c, text, k - 1) == State({}, text)
  {
    hide Fired, Splice, Render;
  }

  /** Over a file with a table spliced in, the table's own diagnostics fire. */
  lemma SplicedFires(c: Checker, text: string, table: Table)
    requires AllWritable(table)
    ensures Fired(c, Splice(text, Render(table))) == Diagnostics(c, table)
  {
    hide TableOf, Splice, Render, AllWritable, Diagnostics;
    SplicedTable(text, table);
  }

  /** What the file holds after a pass is the accumulated table, so the next run collects its diagnostics. */
  lemma {:induction false} AfterIsAccumulated(c: Checker, text: string, k: nat)
    requires Speaks(c) && k >= 1
    ensures After(c, text, k).table == Accumulated(c, Fired(c, text), k)
    ensures Fired(c, After(c, text, k).text) == Diagnostics(c, Accumulated(c, Fired(c, text), k))
  {
    hide After, Fired, Diagnostics, Splice, Render, AllWritable, Speaks;
    var first := Fired(c, text);
    FiredWritable(c, text);
    AccumulatedWritable(c, first, k);
    AfterStep(c, text, k);
    if k > 1 { AfterIsAccumulated(c, text, k - 1); } else { assert {} + first == first; }
    SplicedFires(c, After(c, text, k - 1).text, After(c, text, k).table);
  }

  lemma QuietIsClosed(c: Checker, table: Table)
    ensures Diagnostics(c, table) <= table <==> Closed(c, table)
  {
    assert Diagnostics(c, table) !! table;
  }

  lemma {:induction false} StillIsClosed(c: Checker, text: string, k: nat)
    requires Speaks(c) && k >= 1
    ensures FirstStill(c, text, k) == FirstClosed(c, Fired(c, text), k)
    decreases PASSES - k
  {
    hide Fired, After, Accumulated, Closed, Diagnostics, Speaks;
    if k < PASSES {
      AfterIsAccumulated(c, text, k);
      QuietIsClosed(c, After(c, text, k).table);
      StillIsClosed(c, text, k + 1);
    }
  }

  /** The loop on the file is the loop on tables: installing a table and running again loses and adds nothing. */
  lemma BuiltOnIsBuilt(c: Checker, text: string)
    requires Speaks(c)
    ensures BuiltOn(c, text) == Built(c, Fired(c, text))
  {
    StillIsClosed(c, text, 1);
    hide FirstStill, FirstClosed, Fired, After, Accumulated;
    match FirstClosed(c, Fired(c, text), 1) {
      case Some(k) =>
        FirstClosedHolds(c, Fired(c, text), 1);
        AfterIsAccumulated(c, text, k);
      case None =>
    }
  }

  // ----- what the loop computes

  lemma {:induction false} FirstClosedHolds(c: Checker, first: Table, from: nat)
    requires 1 <= from
    ensures var f := FirstClosed(c, first, from);
            && (f.Some? ==> from <= f.value < PASSES && Closed(c, Accumulated(c, first, f.value))
                            && forall j | from <= j < f.value :: !Closed(c, Accumulated(c, first, j)))
            && (f.None? ==> forall j | from <= j < PASSES :: !Closed(c, Accumulated(c, first, j)))
    decreases PASSES - from
  {
    hide Accumulated, Closed;
    if from < PASSES && !Closed(c, Accumulated(c, first, from)) { FirstClosedHolds(c, first, from + 1); }
  }

  /** Between passes the table never shrinks, and it grows until it is closed. */
  lemma AccumulatedGrows(c: Checker, first: Table, k: nat)
    requires k >= 1
    ensures Accumulated(c, first, k) <= Accumulated(c, first, k + 1)
    ensures Accumulated(c, first, k) == Accumulated(c, first, k + 1) <==> Closed(c, Accumulated(c, first, k))
  {
    var s := Accumulated(c, first, k);
    assert Diagnostics(c, s) !! s;
  }

  lemma {:induction false} AccumulatedSize(c: Checker, first: Table, k: nat)
    requires k >= 1 && forall j | 1 <= j < k :: !Closed(c, Accumulated(c, first, j))
    ensures |Accumulated(c, first, k)| >= |first| + k - 1
    decreases k
  {
    if k > 1 {
      AccumulatedSize(c, first, k - 1);
      var s := Accumulated(c, first, k - 1);
      assert |s + Diagnostics(c, s)| == |s| + |Diagnostics(c, s)|;
    }
  }

  /** Everything accumulated stays inside any closed table that holds what the first pass saw. */
  lemma {:induction false} AccumulatedWithin(c: Checker, first: Table, k: nat, bound: Table)
    requires k >= 1 && Monotone(c) && Closed(c, bound) && first <= bound
    ensures Accumulated(c, first, k) <= bound
    decreases k
  {
    if k > 1 {
      AccumulatedWithin(c, first, k - 1, bound);
      var s := Accumulated(c, first, k - 1);
      assert c.shows(s) <= c.shows(bound);
      forall p | p in Diagnostics(c, s) ensures p in bound { assert p !in Diagnostics(c, bound); }
    }
  }

  /** When the build returns, its table is closed: nothing fires outside it. */
  lemma BuiltIsClosed(c: Checker, first: Table)
    requires Built(c, first).Ok?
    ensures Closed(c, Built(c, first).value.0)
    ensures 1 <= Built(c, first).value.1 < PASSES
    ensures forall j | 1 <= j < Built(c, first).value.1 :: Accumulated(c, first, j) < Accumulated(c, first, j + 1)
  {
    FirstClosedHolds(c, first, 1);
    hide Accumulated, Closed, FirstClosed;
    forall j | 1 <= j < Built(c, first).value.1 ensures Accumulated(c, first, j) < Accumulated(c, first, j + 1) {
      AccumulatedGrows(c, first, j);
    }
  }

  /** The result is the least closed table exactly when the first pass, run on the file as it was, saw only pairs of it. */
  lemma BuiltIsLeast(c: Checker, first: Table, least: Table)
    requires Monotone(c) && LeastClosed(c, least) && Built(c, first).Ok?
    ensures least <= Built(c, first).value.0
    ensures Built(c, first).value.0 == least <==> first <= least
  {
    BuiltIsClosed(c, first);
    var (result, k) := Built(c, first).value;
    if first <= least {
      AccumulatedWithin(c, first, k, least);
    }
    FirstPassKept(c, first, k);
  }

  lemma {:induction false} FirstPassKept(c: Checker, first: Table, k: nat)
    requires k >= 1
    ensures first <= Accumulated(c, first, k)
    decreases k
  {
    if k > 1 { FirstPassKept(c, first, k - 1); }
  }

  /** A file that was green, and one whose table lay inside the least closed table, both meet that condition. */
  lemma GoodStarts(c: Checker, start: Table, least: Table)
    requires Monotone(c) && LeastClosed(c, least) && Built(c, Diagnostics(c, start)).Ok?
    requires Closed(c, start) || start <= least
    ensures Built(c, Diagnostics(c, start)).value.0 == least
  {
    var first := Diagnostics(c, start);
    if start <= least {
      assert c.shows(start) <= c.shows(least);
      forall p | p in first ensures p in least { assert p !in Diagnostics(c, least); }
    }
    BuiltIsLeast(c, first, least);
  }

  /** If any table is closed, there is a least closed one, and passes from nothing come to it. */
  lemma LeastTableExists(c: Checker, bound: Table) returns (k: nat)
    requires Monotone(c) && Closed(c, bound)
    ensures k >= 1 && LeastClosed(c, Accumulated(c, {}, k))
  {
    var n := |bound| + 2;
    if forall j | 1 <= j < n :: !Closed(c, Accumulated(c, {}, j)) {
      AccumulatedSize(c, {}, n);
      AccumulatedWithin(c, {}, n, bound);
      Subsets(Accumulated(c, {}, n), bound);
    }
    k :| 1 <= k < n && Closed(c, Accumulated(c, {}, k));
    forall s | Closed(c, s) ensures Accumulated(c, {}, k) <= s { AccumulatedWithin(c, {}, k, s); }
  }

  /** A build that starts green gives the least closed table; so does one whose file holds the result of another build. */
  lemma SecondRunIsLeast(c: Checker, first: Table)
    requires Monotone(c) && Built(c, first).Ok?
    requires Built(c, {}).Ok?
    ensures Diagnostics(c, Built(c, first).value.0) == {}
    ensures LeastClosed(c, Built(c, {}).value.0)
  {
    BuiltIsClosed(c, first);
    BuiltIsClosed(c, {});
    var k := Built(c, {}).value.1;
    forall s | Closed(c, s) ensures Built(c, {}).value.0 <= s { AccumulatedWithin(c, {}, k, s); }
  }

  /**
   A freshly written file compares as current with what the next build proposes exactly when the
   first pass over the old file saw only pairs of the least closed table. From a stale file the
   command can write a table that its own check then calls stale; the second write settles it.
   */
  lemma FreshFileIsCurrent(c: Checker, text: string)
    requires Speaks(c) && Monotone(c) && BuiltOn(c, text).Ok? && BuiltOn(c, Proposed(c, text)).Ok?
    ensures var least := BuiltOn(c, Proposed(c, text)).value.0;
            && LeastClosed(c, least)
            && (Proposed(c, Proposed(c, text)) == Proposed(c, text) <==> Fired(c, text) <= least)
            && TableOf(Proposed(c, Proposed(c, text))) == least
  {
    var first := Fired(c, text);
    BuiltOnIsBuilt(c, text);
    BuiltOnIsBuilt(c, Proposed(c, text));
    ProposedTable(c, text);
    ProposedTable(c, Proposed(c, text));
    BuiltIsClosed(c, first);
    assert Fired(c, Proposed(c, text)) == {};
    hide Render, TableOf, Splice, Closed, Monotone, Diagnostics, Built, BuiltOn, Speaks, LeastClosed, Fired, Proposed;
    SecondRunIsLeast(c, first);
    var least := Built(c, {}).value.0;
    BuiltIsLeast(c, first, least);
    ResplicedIsSame(text, Built(c, first).value.0, least);
  }

  /**
   After a write that is checked again. The check answers "current" exactly when the first pass over
   the old file saw only pairs of the least closed table, unless an end marker above the region, or in
   a path of it, makes the file one the command refuses.
   */
  lemma CheckAfterWrite(c: Checker, text: string)
    requires Speaks(c) && Monotone(c) && !ContentUnder(text) && BuiltOn(c, text).Ok? && BuiltOn(c, Proposed(c, text)).Ok?
    ensures Answer(c, text, false) == Wrote(BuiltOn(c, text).value.1)
    ensures var again, least := Answer(c, Proposed(c, text), true), BuiltOn(c, Proposed(c, text)).value.0;
            && LeastClosed(c, least)
            && (again.Current? <==> !ContentUnder(Proposed(c, text)) && Fired(c, text) <= least)
            && (again.Stale? <==> !ContentUnder(Proposed(c, text)) && !(Fired(c, text) <= least))
            && (ContentUnder(Proposed(c, text))
                <==> Contains(Above(text), END_MARKER) || exists p | p in BuiltOn(c, text).value.0 :: Contains(p.path, END_MARKER))
  {
    AnswerExactly(c, text);
    AnswerExactly(c, Proposed(c, text));
    FreshFileIsCurrent(c, text);
    ProposedTable(c, text);
    hide Render, TableOf, Splice, Monotone, BuiltOn, Speaks, LeastClosed, Fired, ContentUnder, END_MARKER, Above, Contains;
    SplicedUnder(text, BuiltOn(c, text).value.0);
  }

  /** A spliced file has content under its first end marker exactly when one stands in front of the region's own. */
  lemma SplicedUnder(text: string, table: Table)
    requires AllWritable(table)
    ensures ContentUnder(Splice(text, Render(table)))
       <==> Contains(Above(text), END_MARKER) || exists p | p in table :: Contains(p.path, END_MARKER)
  {
    var head, front := RStrip(Above(text)), FrontOf(table);
    hide FrontOf, END_MARKER, MARKER, NOTE, Above, RStrip, Contains, Render, ContentUnder;
    RegionFront(table);
    SplicedText(head, front);
    EndInFront(text, head, front);
    UnderOwnMarker(head + NL + NL + front, Splice(text, Render(table)));
  }

  lemma SplicedText(head: string, front: string)
    ensures head + NL + NL + (front + END_MARKER + NL) == (head + NL + NL + front) + END_MARKER + NL
  {
    hide END_MARKER;
  }

  lemma RegionFront(table: Table)
    requires AllWritable(table)
    ensures Render(table) == FrontOf(table) + END_MARKER + NL
    ensures Contains(FrontOf(table), END_MARKER) <==> exists p | p in table :: Contains(p.path, END_MARKER)
  {
    hide MARKER, NOTE, END_MARKER, Render, Contains, Blocks, Sorted, Layout.Unlines;
    RegionSplits(table);
    EndInRegion(table);
  }

  /** A region up to its end marker. */
  function FrontOf(table: Table): string {
    MARKER + NL + Layout.Unlines([NOTE] + Blocks(table, Sorted(Paths(table))) + [""])
  }

  lemma EndInFront(text: string, head: string, front: string)
    requires head == RStrip(Above(text))
    ensures Contains(head + NL + NL + front, END_MARKER) <==> Contains(Above(text), END_MARKER) || Contains(front, END_MARKER)
  {
    EndMarkerShape();
    RStripKeepsWord(Above(text), END_MARKER);
    NoHash("");
    hide END_MARKER, Contains, Above, RStrip;
    InOnePart(head + NL, front, END_MARKER);
    InOnePart(head, "", END_MARKER);
    assert head + NL + "" == head + NL;
  }

  /** A text that ends in an end marker and a line feed. */
  lemma UnderOwnMarker(front: string, file: string)
    requires file == front + END_MARKER + NL
    ensures ContentUnder(file) <==> Contains(front, END_MARKER)
  {
    EndMarkerShape();
    UnderIsBelow(file);
    hide END_MARKER, Cut;
    if Contains(front, END_MARKER) {
      var below := Cut(front, END_MARKER).value.1;
      assert file == front + (END_MARKER + NL);
      CutInFront(front, END_MARKER, END_MARKER + NL);
      var rest := below + (END_MARKER + NL);
      assert rest[|below|] == '#' && !Layout.IsSpace('#');
    } else {
      CutAt(front, END_MARKER, NL);
      assert Layout.Blank(NL);
    }
  }

  /** Trailing line feeds are no part of a word without them. */
  lemma {:induction false} RStripKeepsWord(t: string, w: string)
    requires w != "" && '\n' !in w
    ensures Contains(RStrip(t), w) <==> Contains(t, w)
    decreases |t|
  {
    hide Contains;
    if t != "" && t[|t| - 1] == '\n' {
      var front := t[..|t| - 1];
      RStripKeepsWord(front, w);
      assert t == front + NL + "";
      InOnePart(front, "", w);
      LacksChar("", w, w[0]);
    }
  }

  /** What is proposed is the built table spliced in, and it reads back as that table. */
  lemma ProposedTable(c: Checker, text: string)
    requires Speaks(c) && BuiltOn(c, text).Ok?
    ensures var table := BuiltOn(c, text).value.0;
            && AllWritable(table) && Proposed(c, text) == Splice(text, Render(table))
            && TableOf(Proposed(c, text)) == table
  {
    BuiltOnIsBuilt(c, text);
    FiredWritable(c, text);
    var (table, passes) := Built(c, Fired(c, text)).value;
    hide Render, TableOf, Splice, BuiltOn, Fired, AllWritable;
    BuiltIsClosed(c, Fired(c, text));
    AccumulatedWritable(c, Fired(c, text), passes);
    SplicedTable(text, table);
  }

  /** Splicing another table over a first changes the file exactly when the tables differ. */
  lemma ResplicedIsSame(text: string, first: Table, second: Table)
    requires AllWritable(first) && AllWritable(second)
    ensures Splice(Splice(text, Render(first)), Render(second)) == Splice(text, Render(first)) <==> first == second
  {
    SpliceRenderLastWins(text, first, Render(second));
    hide Render, TableOf, Splice, AllWritable;
    SplicedTable(text, first);
    SplicedTable(text, second);
  }

  /** The build can only fail to converge when every closed table with the first pass in it has at least nine more pairs. */
  lemma FailureNeedsManyPairs(c: Checker, first: Table, bound: Table)
    requires Monotone(c) && Closed(c, bound) && first <= bound
    requires Built(c, first).Err?
    ensures |bound| >= |first| + 9
  {
    FirstClosedHolds(c, first, 1);
    AccumulatedSize(c, first, PASSES);
    AccumulatedWithin(c, first, PASSES, bound);
    Subsets(Accumulated(c, first, PASSES), bound);
  }

  lemma Subsets(a: Table, b: Table)
    requires a <= b
    ensures |a| <= |b|
  {
    assert b == a + (b - a);
  }

  /**
   From a stale table the first regeneration can keep a pair nothing needs. Here a suppression
   that no longer fires reveals a second one; the result holds it although the least closed
   table is empty.
   */
  lemma StaleTableLeaks(x: Pair, y: Pair)
    requires x != y
    ensures var c := Checker({}, t => if x in t then {y} else {}, _ => {});
            && Monotone(c) && LeastClosed(c, {})
            && Built(c, Diagnostics(c, {x})) == Ok(({y}, 1)) && !(Diagnostics(c, {x}) <= {})
  {
    var c := Checker({}, t => if x in t then {y} else {}, _ => {});
    assert Diagnostics(c, {x}) == {y};
    assert Accumulated(c, {y}, 1) == {y} && Closed(c, {y});
    assert FirstClosed(c, {y}, 1) == Some(1);
  }
}
