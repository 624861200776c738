/**
 The documentation gate's line filters and page markers: which lines of a page each pattern class
 sees, which classes a marker exempts, and how the two scans share out the findings.
 */
module FencedPages {
  import opened Wrappers

  /** `marker exempt=groups` as `_MARKER_DECL` reads it off one line. */
  datatype Decl = Decl(name: string, groups: set<string>)

  /**
   What the gate's patterns see of one line: is it a fence, is it a comment, which marker names
   stand in it, which declarations it carries, the codes of the patterns that match it, and the
   line citation in it. `text` is the stripped line.
   */
  datatype Line = Line(fence: bool, comment: bool, mentions: set<string>, decls: seq<Decl>,
                       hits: set<string>, citation: Option<string>, text: string)

  datatype Numbered = Numbered(number: nat, line: Line)

  datatype Filter = Unfenced | Prose | Every

  /** The findings' own form: they say which pattern hit, and not which group it is in. */
  datatype Finding = Finding(code: string, page: string, line: nat, text: string)

  datatype Page = Page(path: string, lines: seq<Line>)

  datatype Refusal =
    | NotAMarker(name: string)
    | NoGroup(marker: string)
    | UnknownGroups(marker: string, groups: set<string>)
    | NoDeclaration(marker: string)

  const MARKERS: seq<string> := ["hhemt:generated-file", "hhemt:personal-voice", "hhemt:repo-internal"]

  const GROUPS: set<string> := {"prose", "binary"}

  // ----- the pattern tables' codes

  const PLACEHOLDER_CODES: seq<string> := [
    "self-declared-placeholder", "deferred-to-later-task", "deferred-release-content", "coming-soon",
    "bare-todo-marker", "stub-self-declaration", "unfilled-date-placeholder"]

  const CITATION_CODE := "bare-line-citation"

  const PUNCTUATION_CODES: seq<string> := ["em-dash"]

  const WORD_BAN_CODES: seq<string> := [
    "banned-word-scaffold", "banned-word-estate", "development-provenance", "banned-path-sense-master"]

  const ADVISORY_CODES: seq<string> := ["deletable-clause-candidate"]

  // ----- the line filters

  /** The fence toggle after the lines. */
  function InFence(lines: seq<Line>): bool {
    if lines == [] then false
    else
      var n := |lines| - 1;
      if lines[n].fence then !InFence(lines[..n]) else InFence(lines[..n])
  }

  /** Does a filter pass a line met with the toggle in this state? */
  predicate Passes(filter: Filter, inFence: bool, line: Line) {
    !line.fence && match filter
                   case Unfenced => !inFence
                   case Prose => !inFence || line.comment
                   case Every => true
  }

  /** The numbered lines a filter yields. */
  function Kept(filter: Filter, lines: seq<Line>): seq<Numbered> {
    if lines == [] then []
    else
      var n := |lines| - 1;
      Kept(filter, lines[..n]) + if Passes(filter, InFence(lines[..n]), lines[n]) then [Numbered(n + 1, lines[n])] else []
  }

  method FilterLines(filter: Filter, lines: seq<Line>) returns (kept: seq<Numbered>)
    ensures kept == Kept(filter, lines)
  {
    kept := [];
    var inFence := false;
    for i := 0 to |lines|
      invariant inFence == InFence(lines[..i]) && kept == Kept(filter, lines[..i])
    {
      assert lines[..i + 1][..i] == lines[..i];
      if lines[i].fence {
        inFence := !inFence;
      } else if filter.Every? || !inFence || (filter.Prose? && lines[i].comment) {
        kept := kept + [Numbered(i + 1, lines[i])];
      }
    }
    assert lines[..|lines|] == lines;
  }

  // ----- which lines a filter yields

  /** An odd number of fences stands in front of line `i`. */
  predicate OpenAt(lines: seq<Line>, i: nat)
    requires i <= |lines|
  {
    |FencesBefore(lines, i)| % 2 == 1
  }

  function FencesBefore(lines: seq<Line>, i: nat): set<nat>
    requires i <= |lines|
  {
    set k: nat | k < i && lines[k].fence
  }

  lemma OneMoreFence(lines: seq<Line>, i: nat)
    requires i < |lines|
    ensures |FencesBefore(lines, i + 1)| == |FencesBefore(lines, i)| + if lines[i].fence then 1 else 0
  {
    assert FencesBefore(lines, i + 1) == FencesBefore(lines, i) + if lines[i].fence then {i} else {};
  }

  lemma {:induction false} InFenceExactly(lines: seq<Line>, i: nat)
    requires i <= |lines|
    ensures InFence(lines[..i]) == OpenAt(lines, i)
    decreases i
  {
    if i > 0 {
      InFenceExactly(lines, i - 1);
      OneMoreFence(lines, i - 1);
      hide FencesBefore;
      assert lines[..i][..i - 1] == lines[..i - 1];
    }
  }

  /**
   Which numbered lines a filter yields: of the lines that are no fence, all of them, those with an even
   number of fences in front, or those and the comments.
   */
  lemma {:induction false} KeptExactly(filter: Filter, lines: seq<Line>, n: Numbered)
    ensures n in Kept(filter, lines)
       <==> && 0 < n.number <= |lines| && n.line == lines[n.number - 1] && !n.line.fence
            && (filter == Every || !OpenAt(lines, n.number - 1) || (filter == Prose && n.line.comment))
    decreases |lines|
  {
    hide OpenAt;
    if lines != [] {
      var k := |lines| - 1;
      KeptExactly(filter, lines[..k], n);
      InFenceExactly(lines, k);
      if 0 < n.number <= k { SameFences(lines, k, n.number - 1); }
    }
  }

  lemma SameFences(lines: seq<Line>, k: nat, i: nat)
    requires i <= k <= |lines|
    ensures OpenAt(lines[..k], i) == OpenAt(lines, i)
  {
    assert FencesBefore(lines[..k], i) == FencesBefore(lines, i);
  }

  /** They come in the order of the page. */
  lemma {:induction false} KeptInOrder(filter: Filter, lines: seq<Line>)
    ensures forall i, j | 0 <= i < j < |Kept(filter, lines)| :: Kept(filter, lines)[i].number < Kept(filter, lines)[j].number
    decreases |lines|
  {
    if lines != [] {
      var k := |lines| - 1;
      KeptInOrder(filter, lines[..k]);
      forall i | 0 <= i < |Kept(filter, lines[..k])| ensures Kept(filter, lines[..k])[i].number <= k {
        KeptExactly(filter, lines[..k], Kept(filter, lines[..k])[i]);
      }
      hide OpenAt, InFence;
    }
  }

  function Bare(kept: seq<Numbered>): (lines: seq<Line>)
    ensures |lines| == |kept| && forall i | 0 <= i < |kept| :: lines[i] == kept[i].line
  {
    if kept == [] then [] else Bare(kept[..|kept| - 1]) + [kept[|kept| - 1].line]
  }

  /** What a reader sees outside the fences, line numbers aside. */
  function Visible(lines: seq<Line>): seq<Line> {
    Bare(Kept(Unfenced, lines))
  }

  // ----- a fenced block put into a page

  /** The fence toggle after the lines, from a given state. */
  function Toggle(start: bool, lines: seq<Line>): bool
    decreases |lines|
  {
    if lines == [] then start else Toggle(if lines[0].fence then !start else start, lines[1..])
  }

  /** What a reader sees of the lines, from a given state. */
  function Shown(start: bool, lines: seq<Line>): seq<Line>
    decreases |lines|
  {
    if lines == [] then []
    else if lines[0].fence then Shown(!start, lines[1..])
    else (if start then [] else [lines[0]]) + Shown(start, lines[1..])
  }

  function Fences(lines: seq<Line>): nat {
    if lines == [] then 0 else (if lines[0].fence then 1 else 0) + Fences(lines[1..])
  }

  lemma {:induction false} ToggleCounts(start: bool, lines: seq<Line>)
    ensures Toggle(start, lines) == if Fences(lines) % 2 == 0 then start else !start
    decreases |lines|
  {
    if lines != [] { ToggleCounts(if lines[0].fence then !start else start, lines[1..]); }
  }

  lemma LastLine(front: seq<Line>, last: Line)
    ensures InFence(front + [last]) == if last.fence then !InFence(front) else InFence(front)
    ensures Visible(front + [last]) == Visible(front) + if !last.fence && !InFence(front) then [last] else []
  {
    assert (front + [last])[..|front|] == front;
    hide InFence;
  }

  /** What is added behind a text is seen from the state the text leaves. */
  lemma {:induction false} ReadsOn(a: seq<Line>, x: seq<Line>)
    ensures InFence(a + x) == Toggle(InFence(a), x)
    ensures Visible(a + x) == Visible(a) + Shown(InFence(a), x)
    decreases |x|
  {
    hide Visible, InFence;
    if x == [] {
      assert a + x == a;
    } else {
      assert a + x == (a + [x[0]]) + x[1..];
      LastLine(a, x[0]);
      ReadsOn(a + [x[0]], x[1..]);
    }
  }

  /** A block: a fence, an interior, and a fence. */
  function Block(first: Line, inner: seq<Line>, last: Line): seq<Line> {
    [first] + inner + [last]
  }

  lemma BlockRead(start: bool, first: Line, inner: seq<Line>, last: Line)
    requires first.fence && last.fence
    ensures Toggle(start, Block(first, inner, last)) == if Fences(inner) % 2 == 0 then start else !start
    ensures Shown(start, Block(first, inner, last)) == Shown(!start, inner)
  {
    var block := Block(first, inner, last);
    assert block == [first] + (inner + [last]) && block[1..] == inner + [last];
    ToggleCounts(start, block);
    InteriorRead(!start, inner, last);
  }

  lemma {:induction false} InteriorRead(start: bool, inner: seq<Line>, last: Line)
    requires last.fence
    ensures Shown(start, inner + [last]) == Shown(start, inner)
    ensures Fences(inner + [last]) == Fences(inner) + 1
    decreases |inner|
  {
    if inner == [] {
      assert inner + [last] == [last] && [last][1..] == [];
    } else {
      assert (inner + [last])[1..] == inner[1..] + [last];
      InteriorRead(if inner[0].fence then !start else start, inner[1..], last);
    }
  }

  /** The interior leaves the fence open where it found it open, and nothing in it is outside a fence. */
  predicate Enclosed(inner: seq<Line>) {
    Fences(inner) % 2 == 0 && Shown(true, inner) == []
  }

  /**
   A block put at an unfenced position changes nothing outside the fences, whatever follows it,
   exactly when its interior holds an even number of fence lines and shows nothing between them.
   The fence filter toggles on both kinds of fence, so a block that shows a block is not safe by itself.
   */
  lemma BlockIsInvisible(a: seq<Line>, first: Line, inner: seq<Line>, last: Line)
    requires first.fence && last.fence && !InFence(a)
    ensures (forall b :: Visible(a + Block(first, inner, last) + b) == Visible(a + b)) <==> Enclosed(inner)
  {
    var block := Block(first, inner, last);
    hide Visible, InFence, Block, Fences;
    ReadsOn(a, block);
    BlockRead(false, first, inner, last);
    if Enclosed(inner) {
      forall b ensures Visible(a + block + b) == Visible(a + b) {
        ReadsOn(a + block, b);
        ReadsOn(a, b);
      }
    } else if Shown(true, inner) != [] {
      assert a + block + [] == a + block && a + [] == a;
      assert Visible(a + block + []) != Visible(a + []);
    } else {
      var line := Line(false, false, {}, [], {}, None, "");
      ReadsOn(a + block, [line]);
      ReadsOn(a, [line]);
      assert Visible(a + block + [line]) != Visible(a + [line]);
    }
  }

  /** Inside a fence a block with an even interior is turned inside out: what its interior hides is shown, and the rest stays. */
  lemma BlockInsideOut(a: seq<Line>, first: Line, inner: seq<Line>, last: Line, b: seq<Line>)
    requires first.fence && last.fence && InFence(a) && Fences(inner) % 2 == 0
    ensures Visible(a + b) == Visible(a) + Shown(true, b)
    ensures Visible(a + Block(first, inner, last) + b) == Visible(a) + Shown(false, inner) + Shown(true, b)
  {
    var block := Block(first, inner, last);
    hide Visible, InFence, Block, Fences;
    BlockRead(true, first, inner, last);
    ReadsOn(a, block);
    ReadsOn(a + block, b);
    ReadsOn(a, b);
  }

  // ----- the exemption markers

  /** The first declaration of this name on a line, and on a run of lines. */
  function FirstOnLine(decls: seq<Decl>, marker: string): Option<set<string>> {
    if decls == [] then None
    else if decls[0].name == marker then Some(decls[0].groups)
    else FirstOnLine(decls[1..], marker)
  }

  /** Only lines that name the marker are looked at. */
  function FirstDeclared(lines: seq<Line>, marker: string): Option<set<string>> {
    if lines == [] then None
    else if marker in lines[0].mentions && FirstOnLine(lines[0].decls, marker).Some? then FirstOnLine(lines[0].decls, marker)
    else FirstDeclared(lines[1..], marker)
  }

  predicate Mentioned(lines: seq<Line>, marker: string) {
    exists i | 0 <= i < |lines| :: marker in lines[i].mentions
  }

  /** A declaration's groups, if it names any and all are known. */
  function Validated(marker: string, groups: set<string>): Result<Option<set<string>>, Refusal> {
    if groups == {} then Err(NoGroup(marker))
    else if groups - GROUPS != {} then Err(UnknownGroups(marker, groups - GROUPS))
    else Ok(Some(groups))
  }

  /** What the visible lines declare for a marker: nothing when it is absent, the first declaration otherwise. */
  function Declared(visible: seq<Line>, marker: string): Result<Option<set<string>>, Refusal> {
    match FirstDeclared(visible, marker)
    case Some(groups) => Validated(marker, groups)
    case None => if Mentioned(visible, marker) then Err(NoDeclaration(marker)) else Ok(None)
  }

  /** The declaration is made on this line, as its first of this name, and the line names the marker. */
  ghost predicate DeclaresAt(lines: seq<Line>, marker: string, i: nat, groups: set<string>) {
    && i < |lines| && marker in lines[i].mentions
    && exists j | 0 <= j < |lines[i].decls| ::
         lines[i].decls[j] == Decl(marker, groups) && forall k | 0 <= k < j :: lines[i].decls[k].name != marker
  }

  lemma {:induction false} FirstOnLineExactly(decls: seq<Decl>, marker: string, groups: set<string>)
    ensures FirstOnLine(decls, marker) == Some(groups)
       <==> exists j | 0 <= j < |decls| :: decls[j] == Decl(marker, groups) && forall k | 0 <= k < j :: decls[k].name != marker
    ensures FirstOnLine(decls, marker) == None <==> forall k | 0 <= k < |decls| :: decls[k].name != marker
  {
    if decls != [] {
      FirstOnLineExactly(decls[1..], marker, groups);
      if decls[0].name == marker {
        assert decls[0] == Decl(marker, decls[0].groups);
      } else {
        if j :| 0 <= j < |decls| && decls[j] == Decl(marker, groups) && forall k | 0 <= k < j :: decls[k].name != marker {
          assert decls[1..][j - 1] == decls[j];
        }
      }
    }
  }

  /** Which declaration counts: the first one on a line that names the marker, whatever later ones say. */
  lemma {:induction false} FirstDeclaredExactly(lines: seq<Line>, marker: string, groups: set<string>)
    ensures FirstDeclared(lines, marker) == Some(groups)
       <==> exists i: nat :: DeclaresAt(lines, marker, i, groups) && forall k: nat, g | k < i :: !DeclaresAt(lines, marker, k, g)
    ensures FirstDeclared(lines, marker) == None <==> forall k: nat, g :: !DeclaresAt(lines, marker, k, g)
    decreases |lines|
  {
    if lines != [] {
      FirstDeclaredExactly(lines[1..], marker, groups);
      DeclaresHere(lines, marker);
      forall k: nat, g ensures DeclaresAt(lines, marker, k + 1, g) <==> DeclaresAt(lines[1..], marker, k, g) {}
      hide DeclaresAt, FirstOnLine;
      if marker in lines[0].mentions && FirstOnLine(lines[0].decls, marker).Some? {
        var g0 := FirstOnLine(lines[0].decls, marker).value;
        assert DeclaresAt(lines, marker, 0, g0);
        if i: nat :| DeclaresAt(lines, marker, i, groups) && forall k: nat, g | k < i :: !DeclaresAt(lines, marker, k, g) {
          assert i == 0;
        }
      } else {
        assert forall g :: !DeclaresAt(lines, marker, 0, g);
        if i: nat :| DeclaresAt(lines[1..], marker, i, groups) && forall k: nat, g | k < i :: !DeclaresAt(lines[1..], marker, k, g) {
          assert DeclaresAt(lines, marker, i + 1, groups);
          forall k: nat, g | k < i + 1 ensures !DeclaresAt(lines, marker, k, g) {
            if k > 0 { assert !DeclaresAt(lines[1..], marker, k - 1, g); }
          }
        }
        if i: nat :| DeclaresAt(lines, marker, i, groups) && forall k: nat, g | k < i :: !DeclaresAt(lines, marker, k, g) {
          assert DeclaresAt(lines[1..], marker, i - 1, groups);
          forall k: nat, g | k < i - 1 ensures !DeclaresAt(lines[1..], marker, k, g) {
            assert !DeclaresAt(lines, marker, k + 1, g);
          }
        }
        forall k: nat, g ensures DeclaresAt(lines, marker, k, g) <==> k > 0 && DeclaresAt(lines[1..], marker, k - 1, g) {}
      }
    }
  }

  lemma DeclaresHere(lines: seq<Line>, marker: string)
    requires lines != []
    ensures forall g :: DeclaresAt(lines, marker, 0, g) <==> marker in lines[0].mentions && FirstOnLine(lines[0].decls, marker) == Some(g)
  {
    forall g ensures DeclaresAt(lines, marker, 0, g) <==> marker in lines[0].mentions && FirstOnLine(lines[0].decls, marker) == Some(g) {
      FirstOnLineExactly(lines[0].decls, marker, g);
    }
  }

  lemma {:induction false} FirstDeclaredAt(lines: seq<Line>, marker: string, i: nat)
    requires i <= |lines|
    requires FirstDeclared(lines[..i], marker) == None
    ensures i < |lines| ==>
              if marker in lines[i].mentions && FirstOnLine(lines[i].decls, marker).Some?
              then FirstDeclared(lines, marker) == FirstOnLine(lines[i].decls, marker)
              else FirstDeclared(lines[..i + 1], marker) == None
    decreases i
  {
    hide FirstOnLine;
    if i > 0 {
      assert lines[..i][1..] == lines[1..][..i - 1];
      FirstDeclaredAt(lines[1..], marker, i - 1);
      if i < |lines| { assert lines[..i + 1][1..] == lines[1..][..i]; }
    }
  }

  lemma {:induction false} FirstOnLineAt(decls: seq<Decl>, marker: string, j: nat)
    requires j <= |decls| && forall k | 0 <= k < j :: decls[k].name != marker
    ensures j < |decls| && decls[j].name == marker ==> FirstOnLine(decls, marker) == Some(decls[j].groups)
    ensures j == |decls| ==> FirstOnLine(decls, marker) == None
    decreases j
  {
    if j > 0 { FirstOnLineAt(decls[1..], marker, j - 1); }
  }

  method DeclaredExemptions(lines: seq<Line>, marker: string) returns (r: Result<Option<set<string>>, Refusal>)
    ensures r == Declared(Visible(lines), marker)
  {
    var kept := FilterLines(Unfenced, lines);
    var visible := Bare(kept);
    var seen := false;
    for i := 0 to |visible|
      invariant seen == exists k | 0 <= k < i :: marker in visible[k].mentions
      invariant FirstDeclared(visible[..i], marker) == None
    {
      FirstDeclaredAt(visible, marker, i);
      if marker in visible[i].mentions {
        seen := true;
        var decls := visible[i].decls;
        for j := 0 to |decls|
          invariant forall k | 0 <= k < j :: decls[k].name != marker
        {
          FirstOnLineAt(decls, marker, j);
          if decls[j].name == marker {
            return Validated(marker, decls[j].groups);
          }
        }
        FirstOnLineAt(decls, marker, |decls|);
      }
    }
    assert visible[..|visible|] == visible;
    return if seen then Err(NoDeclaration(marker)) else Ok(None);
  }

  /** The first visible declaration that sits on a name which is no exemption marker. */
  function Foreign(decls: seq<Decl>): Option<string> {
    if decls == [] then None
    else if decls[0].name !in MARKERS then Some(decls[0].name)
    else Foreign(decls[1..])
  }

  function FirstForeign(visible: seq<Line>): Option<string> {
    if visible == [] then None
    else if Foreign(visible[0].decls).Some? then Foreign(visible[0].decls)
    else FirstForeign(visible[1..])
  }

  /** The groups the markers exempt together, marker by marker. */
  function Union(visible: seq<Line>, markers: seq<string>): Result<set<string>, Refusal> {
    if markers == [] then Ok({})
    else
      var n := |markers| - 1;
      match Union(visible, markers[..n])
      case Err(e) => Err(e)
      case Ok(groups) =>
        match Declared(visible, markers[n])
        case Err(e) => Err(e)
        case Ok(None) => Ok(groups)
        case Ok(Some(more)) => Ok(groups + more)
  }

  function Exempt(visible: seq<Line>): Result<set<string>, Refusal> {
    match FirstForeign(visible)
    case Some(name) => Err(NotAMarker(name))
    case None => Union(visible, MARKERS)
  }

  method ExemptGroups(lines: seq<Line>) returns (r: Result<set<string>, Refusal>)
    ensures r == Exempt(Visible(lines))
  {
    var kept := FilterLines(Unfenced, lines);
    ghost var visible := Bare(kept);
    for i := 0 to |kept|
      invariant FirstForeign(visible) == FirstForeign(visible[i..])
    {
      var decls := kept[i].line.decls;
      for j := 0 to |decls|
        invariant Foreign(decls) == Foreign(decls[j..])
      {
        if decls[j].name !in MARKERS {
          return Err(NotAMarker(decls[j].name));
        }
        assert decls[j..][1..] == decls[j + 1..];
      }
      assert visible[i..][1..] == visible[i + 1..];
    }
    var groups := {};
    for m := 0 to |MARKERS|
      invariant Union(visible, MARKERS[..m]) == Ok(groups)
    {
      assert MARKERS[..m + 1][..m] == MARKERS[..m];
      var declared := DeclaredExemptions(lines, MARKERS[m]);
      if declared.Err? {
        UnionStops(visible, MARKERS, m, declared.error);
        return Err(declared.error);
      }
      if declared.value.Some? {
        groups := groups + declared.value.value;
      }
    }
    assert MARKERS[..|MARKERS|] == MARKERS;
    return Ok(groups);
  }

  lemma {:induction false} UnionStops(visible: seq<Line>, markers: seq<string>, m: nat, e: Refusal)
    requires m < |markers| && Union(visible, markers[..m]).Ok? && Declared(visible, markers[m]) == Err(e)
    ensures Union(visible, markers) == Err(e)
  {
    var n := |markers| - 1;
    if m < n {
      assert markers[..n][..m] == markers[..m];
      UnionStops(visible, markers[..n], m, e);
    }
  }

  /** A page documenting the markers may carry any enclosed example: it neither acquires the exemption nor aborts the scan. */
  lemma FencedExampleChangesNothing(a: seq<Line>, first: Line, inner: seq<Line>, last: Line, b: seq<Line>)
    requires first.fence && last.fence && !InFence(a) && Enclosed(inner)
    ensures Exempt(Visible(a + Block(first, inner, last) + b)) == Exempt(Visible(a + b))
  {
    BlockIsInvisible(a, first, inner, last);
    hide Visible, Exempt, InFence, Block;
  }

  const FENCE_LINE := Line(true, false, {}, [], {}, None, "```")

  const GRANT := Line(false, false, {"hhemt:generated-file"}, [Decl("hhemt:generated-file", {"prose"})], {}, None, "")

  /** A fenced block that shows a fenced declaration is not enclosed, and the page acquires what it only shows. */
  lemma NestedFenceGrants()
    ensures var inner := [FENCE_LINE, GRANT, FENCE_LINE];
            && !Enclosed(inner)
            && Exempt(Visible([])) == Ok({})
            && Exempt(Visible([] + Block(FENCE_LINE, inner, FENCE_LINE) + [])) == Ok({"prose"})
  {
    var inner := [FENCE_LINE, GRANT, FENCE_LINE];
    NestedShows(inner);
    ReadsOn([], Block(FENCE_LINE, inner, FENCE_LINE));
    BlockRead(false, FENCE_LINE, inner, FENCE_LINE);
    assert Visible([]) == [] && InFence([]) == false;
    var block := Block(FENCE_LINE, inner, FENCE_LINE);
    assert [] + block + [] == [] + block;
    assert [] + [GRANT] == [GRANT];
    hide Visible, InFence, Block, Shown, GRANT, FENCE_LINE;
    GrantExempts();
  }

  lemma NestedShows(inner: seq<Line>)
    requires inner == [FENCE_LINE, GRANT, FENCE_LINE]
    ensures Shown(true, inner) == [GRANT]
  {
    assert inner[1..] == [GRANT, FENCE_LINE] && inner[1..][1..] == [FENCE_LINE] && inner[1..][1..][1..] == [];
    assert Shown(true, [FENCE_LINE]) == [];
    assert Shown(false, inner[1..]) == [GRANT] + Shown(false, [FENCE_LINE]);
    assert Shown(false, [FENCE_LINE]) == Shown(true, []);
  }

  lemma GrantExempts()
    ensures Exempt([]) == Ok({}) && Exempt([GRANT]) == Ok({"prose"})
  {
    NoMarkers();
    OneGrant();
  }

  /** Without a visible marker nothing is exempt. */
  lemma NoMarkers()
    ensures Exempt([]) == Ok({})
  {
    assert FirstForeign([]) == None && forall m :: FirstDeclared([], m) == None && !Mentioned([], m);
    hide Union, FirstForeign, FirstDeclared, Mentioned, MARKERS;
    ExemptExactly([]);
    UnionMeaning([], MARKERS);
    var groups := Exempt([]).value;
    assert groups == {};
  }

  lemma OneGrant()
    ensures Exempt([GRANT]) == Ok({"prose"})
  {
    var visible, m := [GRANT], MARKERS[0];
    GrantDeclares();
    hide Union, FirstForeign, FirstDeclared, Mentioned, GRANT, MARKERS;
    ExemptExactly(visible);
    UnionMeaning(visible, MARKERS);
    var groups := Exempt(visible).value;
    assert Grants(visible, m, "prose");
    forall g ensures g in groups <==> g == "prose" {
      if k :| k in MARKERS && Grants(visible, k, g) { assert k == m; }
    }
    assert groups == {"prose"};
  }

  lemma GrantDeclares()
    ensures FirstForeign([GRANT]) == None && MARKERS[0] in MARKERS && FirstDeclared([GRANT], MARKERS[0]) == Some({"prose"})
    ensures forall k | k != MARKERS[0] :: FirstDeclared([GRANT], k) == None && !Mentioned([GRANT], k)
  {
    var visible, m := [GRANT], MARKERS[0];
    assert visible[0] == GRANT && visible[1..] == [] && GRANT.decls[0].name == m && GRANT.decls[1..] == [];
    assert GRANT.mentions == {m};
  }

  /** The first visible declaration of the marker names the group. */
  predicate Grants(visible: seq<Line>, marker: string, group: string) {
    FirstDeclared(visible, marker).Some? && group in FirstDeclared(visible, marker).value
  }

  lemma DeclaredMeaning(visible: seq<Line>, marker: string)
    requires Declared(visible, marker).Ok?
    ensures forall g :: Grants(visible, marker, g) <==> Declared(visible, marker).value.Some? && g in Declared(visible, marker).value.value
  {
  }

  /** A page is exempt from something only where it says so: each group is in the first visible declaration of some marker. */
  lemma {:induction false} UnionMeaning(visible: seq<Line>, markers: seq<string>)
    ensures Union(visible, markers).Ok? <==> forall m | m in markers :: Declared(visible, m).Ok?
    ensures Union(visible, markers).Ok? ==>
              forall g :: g in Union(visible, markers).value <==> exists m :: m in markers && Grants(visible, m, g)
  {
    if markers != [] {
      var n := |markers| - 1;
      UnionMeaning(visible, markers[..n]);
      assert markers == markers[..n] + [markers[n]];
      if Declared(visible, markers[n]).Ok? { DeclaredMeaning(visible, markers[n]); }
      hide Declared, Grants;
      if Union(visible, markers).Ok? {
        forall g ensures g in Union(visible, markers).value <==> exists m :: m in markers && Grants(visible, m, g) {
          if m :| m in markers && Grants(visible, m, g) { assert m == markers[n] || m in markers[..n]; }
        }
      }
    }
  }

  /** The scan of a page is refused exactly when a visible declaration is misplaced, or a named marker's first one is absent, empty or unknown. */
  lemma ExemptExactly(visible: seq<Line>)
    ensures Exempt(visible).Ok? <==>
              && FirstForeign(visible) == None
              && forall m | m in MARKERS :: match FirstDeclared(visible, m)
                                            case Some(groups) => groups != {} && groups <= GROUPS
                                            case None => !Mentioned(visible, m)
    ensures Exempt(visible).Ok? ==> Exempt(visible).value <= GROUPS
  {
    hide MARKERS, FirstDeclared, Mentioned, FirstForeign;
    UnionMeaning(visible, MARKERS);
    forall m | m in MARKERS ensures Declared(visible, m).Ok? <==> match FirstDeclared(visible, m)
                                                                    case Some(groups) => groups != {} && groups <= GROUPS
                                                                    case None => !Mentioned(visible, m)
    {
      hide Union;
      if FirstDeclared(visible, m).Some? {
        var groups := FirstDeclared(visible, m).value;
        assert groups - GROUPS == {} <==> groups <= GROUPS;
      }
    }
  }

  /** The first misplaced declaration is the first on the first line that has one. */
  lemma {:induction false} ForeignExactly(visible: seq<Line>)
    ensures FirstForeign(visible) == None
       <==> forall i, j | 0 <= i < |visible| && 0 <= j < |visible[i].decls| ::
              visible[i].decls[j].name in ["hhemt:generated-file", "hhemt:personal-voice", "hhemt:repo-internal"]
    ensures forall name | FirstForeign(visible) == Some(name) ::
              name !in MARKERS
              && exists i, j | 0 <= i < |visible| && 0 <= j < |visible[i].decls| ::
                   && visible[i].decls[j].name == name
                   && (forall l | 0 <= l < j :: visible[i].decls[l].name in MARKERS)
                   && forall k, l | 0 <= k < i && 0 <= l < |visible[k].decls| :: visible[k].decls[l].name in MARKERS
  {
    assert MARKERS == ["hhemt:generated-file", "hhemt:personal-voice", "hhemt:repo-internal"];
    hide MARKERS;
    if visible != [] {
      var rest := visible[1..];
      ForeignExactly(rest);
      ForeignOnLine(visible[0].decls);
      if Foreign(visible[0].decls) == None {
        forall i, j | 0 <= i < |visible| && 0 <= j < |visible[i].decls| && i > 0
          ensures visible[i].decls[j] == rest[i - 1].decls[j] {}
        if FirstForeign(rest).Some? {
          var name := FirstForeign(rest).value;
          var i, j :| 0 <= i < |rest| && 0 <= j < |rest[i].decls| && rest[i].decls[j].name == name
            && (forall l | 0 <= l < j :: rest[i].decls[l].name in MARKERS)
            && forall k, l | 0 <= k < i && 0 <= l < |rest[k].decls| :: rest[k].decls[l].name in MARKERS;
          assert visible[i + 1] == rest[i];
          forall k, l | 0 <= k < i + 1 && 0 <= l < |visible[k].decls| ensures visible[k].decls[l].name in MARKERS {
            if k > 0 { assert visible[k] == rest[k - 1]; }
          }
        }
      }
    }
  }

  lemma {:induction false} ForeignOnLine(decls: seq<Decl>)
    ensures Foreign(decls) == None <==> forall j | 0 <= j < |decls| :: decls[j].name in MARKERS
    ensures Foreign(decls).Some? ==>
              exists j | 0 <= j < |decls| ::
                Foreign(decls) == Some(decls[j].name) && decls[j].name !in MARKERS && forall l | 0 <= l < j :: decls[l].name in MARKERS
  {
    hide MARKERS;
    if decls != [] && decls[0].name in MARKERS {
      var rest := decls[1..];
      ForeignOnLine(rest);
      if Foreign(rest).Some? {
        var j :| 0 <= j < |rest| && Foreign(rest) == Some(rest[j].name) && rest[j].name !in MARKERS
                 && forall l | 0 <= l < j :: rest[l].name in MARKERS;
        assert decls[j + 1] == rest[j];
        forall l | 0 <= l < j + 1 ensures decls[l].name in MARKERS { if l > 0 { assert decls[l] == rest[l - 1]; } }
      }
    }
  }

  /** Why a page is refused: over a misplaced declaration before anything else, and otherwise over the first marker, in their order, whose declaration is bad. */
  lemma RefusalExactly(visible: seq<Line>, e: Refusal)
    ensures FirstForeign(visible).Some? ==> Exempt(visible) == Err(NotAMarker(FirstForeign(visible).value))
    ensures FirstForeign(visible) == None ==>
              (Exempt(visible) == Err(e)
               <==> exists i | 0 <= i < |MARKERS| :: BadMarker(visible, MARKERS[i], e) && forall k | 0 <= k < i :: GoodMarker(visible, MARKERS[k]))
  {
    if FirstForeign(visible) == None { UnionRefuses(visible, MARKERS, e); }
    hide Union, BadMarker, GoodMarker, MARKERS;
  }

  /** What is wrong with a marker's first declaration: it names no group, or an unknown one, or there is none although the marker is there. */
  ghost predicate BadMarker(visible: seq<Line>, marker: string, e: Refusal) {
    match FirstDeclared(visible, marker)
    case Some(groups) =>
      (groups == {} && e == NoGroup(marker))
      || (groups - {"prose", "binary"} != {} && e == UnknownGroups(marker, groups - {"prose", "binary"}))
    case None => e == NoDeclaration(marker) && exists i | 0 <= i < |visible| :: marker in visible[i].mentions
  }

  ghost predicate GoodMarker(visible: seq<Line>, marker: string) {
    forall e :: !BadMarker(visible, marker, e)
  }

  lemma BadIsRefused(visible: seq<Line>, marker: string)
    ensures forall e :: BadMarker(visible, marker, e) <==> Declared(visible, marker) == Err(e)
    ensures GoodMarker(visible, marker) <==> Declared(visible, marker).Ok?
  {
    hide FirstDeclared;
    if Declared(visible, marker).Err? { assert BadMarker(visible, marker, Declared(visible, marker).error); }
  }

  lemma {:induction false} UnionRefuses(visible: seq<Line>, markers: seq<string>, e: Refusal)
    ensures Union(visible, markers) == Err(e)
       <==> exists i | 0 <= i < |markers| :: BadMarker(visible, markers[i], e) && forall k | 0 <= k < i :: GoodMarker(visible, markers[k])
    decreases |markers|
  {
    hide BadMarker, GoodMarker, Declared;
    if markers != [] {
      var n := |markers| - 1;
      UnionRefuses(visible, markers[..n], e);
      UnionMeaning(visible, markers[..n]);
      assert forall i | 0 <= i < n :: markers[..n][i] == markers[i];
      forall m ensures (forall x :: BadMarker(visible, m, x) <==> Declared(visible, m) == Err(x))
                       && (GoodMarker(visible, m) <==> Declared(visible, m).Ok?) { BadIsRefused(visible, m); }
      if Union(visible, markers[..n]).Ok? {
        forall k | 0 <= k < n ensures GoodMarker(visible, markers[k]) { assert markers[..n][k] in markers[..n]; }
      }
    }
  }

  // ----- the two scans

  /** A pattern class: its table's codes, and for the binary class the citation after them. */
  datatype Class = Binary | Punctuation | Banned | Advisory

  function Table(class_: Class): seq<string> {
    match class_
    case Binary => PLACEHOLDER_CODES
    case Punctuation => PUNCTUATION_CODES
    case Banned => WORD_BAN_CODES
    case Advisory => ADVISORY_CODES
  }

  /** The findings of a pattern table on one line, in table order. */
  function TableFindings(codes: seq<string>, path: string, n: Numbered): seq<Finding> {
    if codes == [] then []
    else
      var k := |codes| - 1;
      TableFindings(codes[..k], path, n) + if codes[k] in n.line.hits then [Finding(codes[k], path, n.number, n.line.text)] else []
  }

  function CitationFinding(path: string, n: Numbered): seq<Finding> {
    match n.line.citation
    case Some(found) => [Finding(CITATION_CODE, path, n.number, found)]
    case None => []
  }

  function LineFindings(class_: Class, path: string, n: Numbered): seq<Finding> {
    TableFindings(Table(class_), path, n) + if class_.Binary? then CitationFinding(path, n) else []
  }

  function ClassFindings(class_: Class, path: string, kept: seq<Numbered>): seq<Finding> {
    if kept == [] then []
    else ClassFindings(class_, path, kept[..|kept| - 1]) + LineFindings(class_, path, kept[|kept| - 1])
  }

  method CollectClass(class_: Class, path: string, kept: seq<Numbered>) returns (findings: seq<Finding>)
    ensures findings == ClassFindings(class_, path, kept)
  {
    hide Table;
    findings := [];
    for i := 0 to |kept|
      invariant findings == ClassFindings(class_, path, kept[..i])
    {
      assert kept[..i + 1][..i] == kept[..i];
      var here := CollectLine(class_, path, kept[i]);
      findings := findings + here;
    }
    assert kept[..|kept|] == kept;
  }

  /** The inner loop: each pattern of the table, then the citation. */
  method CollectLine(class_: Class, path: string, n: Numbered) returns (findings: seq<Finding>)
    ensures findings == LineFindings(class_, path, n)
  {
    var codes := Table(class_);
    hide Table;
    findings := [];
    for k := 0 to |codes|
      invariant findings == TableFindings(codes[..k], path, n)
    {
      assert codes[..k + 1][..k] == codes[..k];
      if codes[k] in n.line.hits {
        findings := findings + [Finding(codes[k], path, n.number, n.line.text)];
      }
    }
    assert codes[..|codes|] == codes;
    if class_.Binary? && n.line.citation.Some? {
      findings := findings + [Finding(CITATION_CODE, path, n.number, n.line.citation.value)];
    }
  }

  function BinaryFindings(page: Page): seq<Finding> {
    ClassFindings(Binary, page.path, Kept(Unfenced, page.lines))
  }

  function ProseFindings(page: Page): seq<Finding> {
    ClassFindings(Punctuation, page.path, Kept(Prose, page.lines)) + ClassFindings(Banned, page.path, Kept(Every, page.lines))
  }

  function AdvisoryFindings(page: Page): seq<Finding> {
    ClassFindings(Advisory, page.path, Kept(Unfenced, page.lines))
  }

  function GateFindings(page: Page): seq<Finding> {
    BinaryFindings(page) + ProseFindings(page)
  }

  // ----- what a page's findings are, read off its lines

  lemma {:induction false} TableFindingsExactly(codes: seq<string>, path: string, n: Numbered, f: Finding)
    ensures f in TableFindings(codes, path, n)
       <==> f.code in codes && f.code in n.line.hits && f.page == path && f.line == n.number && f.text == n.line.text
  {
    if codes != [] {
      var k := |codes| - 1;
      TableFindingsExactly(codes[..k], path, n, f);
      assert codes == codes[..k] + [codes[k]];
    }
  }

  lemma {:induction false} ClassFindingsExactly(class_: Class, path: string, kept: seq<Numbered>, f: Finding)
    ensures f in ClassFindings(class_, path, kept) <==> exists n | n in kept :: f in LineFindings(class_, path, n)
  {
    hide LineFindings;
    if kept != [] {
      var k := |kept| - 1;
      ClassFindingsExactly(class_, path, kept[..k], f);
      assert kept == kept[..k] + [kept[k]];
    }
  }

  /** The finding reports a pattern of these codes that matches its line. */
  ghost predicate Matches(page: Page, f: Finding, codes: seq<string>) {
    && f.page == page.path && 0 < f.line <= |page.lines| && !page.lines[f.line - 1].fence
    && f.code in codes && f.code in page.lines[f.line - 1].hits && f.text == page.lines[f.line - 1].text
  }

  lemma KeptFindings(class_: Class, filter: Filter, page: Page, f: Finding)
    ensures f in ClassFindings(class_, page.path, Kept(filter, page.lines))
       <==> && 0 < f.line <= |page.lines| && !page.lines[f.line - 1].fence
            && (filter == Every || !OpenAt(page.lines, f.line - 1) || (filter == Prose && page.lines[f.line - 1].comment))
            && f in LineFindings(class_, page.path, Numbered(f.line, page.lines[f.line - 1]))
  {
    var kept := Kept(filter, page.lines);
    ClassFindingsExactly(class_, page.path, kept, f);
    hide Kept, OpenAt, Table, ClassFindings;
    if n :| n in kept && f in LineFindings(class_, page.path, n) {
      KeptExactly(filter, page.lines, n);
      TableFindingsExactly(Table(class_), page.path, n, f);
      assert f.line == n.number;
    }
    if 0 < f.line <= |page.lines| {
      KeptExactly(filter, page.lines, Numbered(f.line, page.lines[f.line - 1]));
    }
  }

  /** Placeholders and line citations are looked for outside the fences. */
  lemma BinaryExactly(page: Page, f: Finding)
    ensures f in BinaryFindings(page)
       <==> || (Matches(page, f, PLACEHOLDER_CODES) && !OpenAt(page.lines, f.line - 1))
            || (&& f.page == page.path && f.code == "bare-line-citation" && 0 < f.line <= |page.lines|
                && !page.lines[f.line - 1].fence && !OpenAt(page.lines, f.line - 1)
                && page.lines[f.line - 1].citation == Some(f.text))
  {
    KeptFindings(Binary, Unfenced, page, f);
    hide Kept, OpenAt, ClassFindings, TableFindings;
    if 0 < f.line <= |page.lines| {
      TableFindingsExactly(PLACEHOLDER_CODES, page.path, Numbered(f.line, page.lines[f.line - 1]), f);
    }
  }

  /** Punctuation is looked for outside the fences and in comments inside them, banned words on every line. */
  lemma ProseExactly(page: Page, f: Finding)
    ensures f in ProseFindings(page)
       <==> || (Matches(page, f, ["em-dash"]) && (!OpenAt(page.lines, f.line - 1) || page.lines[f.line - 1].comment))
            || Matches(page, f, ["banned-word-scaffold", "banned-word-estate", "development-provenance", "banned-path-sense-master"])
  {
    KeptFindings(Punctuation, Prose, page, f);
    KeptFindings(Banned, Every, page, f);
    hide Kept, OpenAt, ClassFindings, TableFindings;
    if 0 < f.line <= |page.lines| {
      TableFindingsExactly(PUNCTUATION_CODES, page.path, Numbered(f.line, page.lines[f.line - 1]), f);
      TableFindingsExactly(WORD_BAN_CODES, page.path, Numbered(f.line, page.lines[f.line - 1]), f);
    }
  }

  /** The advisory class is looked for outside the fences. */
  lemma AdvisoryExactly(page: Page, f: Finding)
    ensures f in AdvisoryFindings(page)
       <==> Matches(page, f, ["deletable-clause-candidate"]) && !OpenAt(page.lines, f.line - 1)
  {
    KeptFindings(Advisory, Unfenced, page, f);
    hide Kept, OpenAt, ClassFindings, TableFindings;
    if 0 < f.line <= |page.lines| {
      TableFindingsExactly(ADVISORY_CODES, page.path, Numbered(f.line, page.lines[f.line - 1]), f);
    }
  }

  /** The exempt groups of a page (none of a page that is refused). */
  function Groups(page: Page): set<string> {
    match Exempt(Visible(page.lines))
    case Ok(groups) => groups
    case Err(_) => {}
  }

  /** What the gate fails a page for, and what it leaves to the advisory scan. */
  function Gated(page: Page): seq<Finding> {
    (if "binary" !in Groups(page) then BinaryFindings(page) else [])
    + (if "prose" !in Groups(page) then ProseFindings(page) else [])
  }

  function Routed(page: Page): seq<Finding> {
    (if "binary" in Groups(page) then BinaryFindings(page) else [])
    + (if "prose" in Groups(page) then ProseFindings(page) else [])
  }

  /** A page's part in one of the scans. */
  function Share(page: Page, advisory: bool): Result<seq<Finding>, Refusal> {
    match Exempt(Visible(page.lines))
    case Err(e) => Err(e)
    case Ok(_) => Ok(if advisory then AdvisoryFindings(page) + Routed(page) else Gated(page))
  }

  /** A scan over the pages, refused at the first page whose markers are. */
  function Over(pages: seq<Page>, advisory: bool): Result<seq<Finding>, Refusal> {
    if pages == [] then Ok([])
    else
      var n := |pages| - 1;
      match Over(pages[..n], advisory)
      case Err(e) => Err(e)
      case Ok(findings) =>
        match Share(pages[n], advisory)
        case Err(e) => Err(e)
        case Ok(more) => Ok(findings + more)
  }

  lemma {:induction false} OverStops(pages: seq<Page>, advisory: bool, i: nat, e: Refusal)
    requires i < |pages| && Over(pages[..i], advisory).Ok? && Share(pages[i], advisory) == Err(e)
    ensures Over(pages, advisory) == Err(e)
  {
    hide Share;
    var n := |pages| - 1;
    if i < n {
      assert pages[..n][..i] == pages[..i];
      OverStops(pages[..n], advisory, i, e);
    }
  }

  method CollectBinary(page: Page) returns (findings: seq<Finding>)
    ensures findings == BinaryFindings(page)
  {
    var kept := FilterLines(Unfenced, page.lines);
    findings := CollectClass(Binary, page.path, kept);
  }

  method CollectProse(page: Page) returns (findings: seq<Finding>)
    ensures findings == ProseFindings(page)
  {
    var prose := FilterLines(Prose, page.lines);
    var every := FilterLines(Every, page.lines);
    var punctuation := CollectClass(Punctuation, page.path, prose);
    var banned := CollectClass(Banned, page.path, every);
    findings := punctuation + banned;
  }

  method GatePage(page: Page) returns (r: Result<seq<Finding>, Refusal>)
    ensures r == Share(page, false)
  {
    hide BinaryFindings, ProseFindings, Exempt, Visible;
    var exempt := ExemptGroups(page.lines);
    if exempt.Err? {
      return Err(exempt.error);
    }
    var findings := [];
    if "binary" !in exempt.value {
      findings := CollectBinary(page);
    }
    if "prose" !in exempt.value {
      var prose := CollectProse(page);
      findings := findings + prose;
    }
    assert findings == Gated(page);
    return Ok(findings);
  }

  method AdvisePage(page: Page) returns (r: Result<seq<Finding>, Refusal>)
    ensures r == Share(page, true)
  {
    hide BinaryFindings, ProseFindings, Exempt, Visible;
    var kept := FilterLines(Unfenced, page.lines);
    var shown := CollectClass(Advisory, page.path, kept);
    var exempt := ExemptGroups(page.lines);
    if exempt.Err? {
      return Err(exempt.error);
    }
    var routed := [];
    if "binary" in exempt.value {
      routed := CollectBinary(page);
    }
    if "prose" in exempt.value {
      var prose := CollectProse(page);
      routed := routed + prose;
    }
    assert routed == Routed(page);
    return Ok(shown + routed);
  }

  /** `scan`, and the page part of `scan_advisory`: what fails the gate, and what is only shown. */
  method Scan(pages: seq<Page>, advisory: bool) returns (r: Result<seq<Finding>, Refusal>)
    ensures r == Over(pages, advisory)
  {
    hide Share;
    var findings := [];
    for i := 0 to |pages|
      invariant Over(pages[..i], advisory) == Ok(findings)
    {
      hide Share;
      assert pages[..i + 1][..i] == pages[..i];
      var share;
      if advisory {
        share := AdvisePage(pages[i]);
      } else {
        share := GatePage(pages[i]);
      }
      if share.Err? {
        OverStops(pages, advisory, i, share.error);
        return Err(share.error);
      }
      findings := findings + share.value;
    }
    assert pages[..|pages|] == pages;
    return Ok(findings);
  }

  // ----- nothing is dropped and nothing is reported by both scans

  /** Every finding of the pages, whatever they exempt. */
  function Full(pages: seq<Page>): seq<Finding> {
    if pages == [] then []
    else Full(pages[..|pages| - 1]) + AdvisoryFindings(pages[|pages| - 1]) + GateFindings(pages[|pages| - 1])
  }

  lemma PageIsShared(page: Page)
    ensures multiset(Gated(page)) + multiset(Routed(page)) == multiset(GateFindings(page))
  {
    hide BinaryFindings, ProseFindings, Exempt, Visible;
    assert multiset(GateFindings(page)) == multiset(BinaryFindings(page)) + multiset(ProseFindings(page));
  }

  /** The two scans refuse the same page lists, for the same reason. */
  lemma {:induction false} ScansRefuseTogether(pages: seq<Page>)
    ensures Over(pages, false).Ok? == Over(pages, true).Ok?
    ensures Over(pages, false).Err? ==> Over(pages, false).error == Over(pages, true).error
    ensures Over(pages, false).Ok? <==> forall p | p in pages :: Exempt(Visible(p.lines)).Ok?
  {
    hide Exempt, Visible, AdvisoryFindings, Routed, Gated;
    if pages != [] {
      ScansRefuseTogether(pages[..|pages| - 1]);
      assert pages == pages[..|pages| - 1] + [pages[|pages| - 1]];
    }
  }

  /** Together the two scans report every finding exactly as often as it occurs: exempting a group moves it, it never drops it. */
  lemma {:induction false} NothingDropped(pages: seq<Page>)
    requires Over(pages, false).Ok?
    ensures Over(pages, true).Ok?
    ensures multiset(Over(pages, false).value) + multiset(Over(pages, true).value) == multiset(Full(pages))
  {
    ScansRefuseTogether(pages);
    hide Exempt, Visible, AdvisoryFindings, GateFindings, Routed, Gated;
    if pages != [] {
      var n := |pages| - 1;
      var page := pages[n];
      NothingDropped(pages[..n]);
      PageIsShared(page);
      var gate, shown := Over(pages[..n], false).value, Over(pages[..n], true).value;
      assert multiset(gate + Gated(page)) == multiset(gate) + multiset(Gated(page));
      assert multiset(shown + (AdvisoryFindings(page) + Routed(page)))
          == multiset(shown) + multiset(AdvisoryFindings(page)) + multiset(Routed(page));
      assert multiset(Full(pages)) == multiset(Full(pages[..n])) + multiset(AdvisoryFindings(page)) + multiset(GateFindings(page));
    }
  }

  // ----- the codes tell the groups apart

  predicate BinaryCode(code: string) {
    code in PLACEHOLDER_CODES || code == CITATION_CODE
  }

  predicate ProseCode(code: string) {
    code in PUNCTUATION_CODES || code in WORD_BAN_CODES
  }

  /** No code stands in the tables of two groups. */
  lemma CodesAreDisjoint(code: string)
    ensures !(BinaryCode(code) && ProseCode(code))
    ensures code in ADVISORY_CODES ==> !BinaryCode(code) && !ProseCode(code)
  {
    assert CITATION_CODE[2] == 'r' && WORD_BAN_CODES[1][2] == 'n';
    assert PLACEHOLDER_CODES[1][2] == 'f' && WORD_BAN_CODES[2][2] == 'v';
    assert PLACEHOLDER_CODES[2][0] == 'd' && WORD_BAN_CODES[3][0] == 'b';
  }

  /** The group a finding belongs to, read off its code. */
  function GroupName(code: string): string {
    if BinaryCode(code) then "binary" else if ProseCode(code) then "prose" else "advisory"
  }

  lemma {:induction false} TableFindingsAre(codes: seq<string>, path: string, n: Numbered, f: Finding)
    requires f in TableFindings(codes, path, n)
    ensures f.page == path && f.code in codes
  {
    var k := |codes| - 1;
    if f in TableFindings(codes[..k], path, n) { TableFindingsAre(codes[..k], path, n, f); }
  }

  lemma {:induction false} ClassFindingsAre(class_: Class, path: string, kept: seq<Numbered>, f: Finding)
    requires f in ClassFindings(class_, path, kept)
    ensures f.page == path && (f.code in Table(class_) || (class_ == Binary && f.code == CITATION_CODE))
  {
    hide Table;
    var n := |kept| - 1;
    if f in ClassFindings(class_, path, kept[..n]) {
      ClassFindingsAre(class_, path, kept[..n], f);
    } else if f in TableFindings(Table(class_), path, kept[n]) {
      TableFindingsAre(Table(class_), path, kept[n], f);
    }
  }

  lemma FindingsOfPage(page: Page, f: Finding)
    ensures f in AdvisoryFindings(page) ==> f.page == page.path && GroupName(f.code) == "advisory"
    ensures f in BinaryFindings(page) ==> f.page == page.path && GroupName(f.code) == "binary"
    ensures f in ProseFindings(page) ==> f.page == page.path && GroupName(f.code) == "prose"
  {
    hide Kept, ClassFindings, PLACEHOLDER_CODES, PUNCTUATION_CODES, WORD_BAN_CODES, ADVISORY_CODES, CITATION_CODE;
    var p, lines := page.path, page.lines;
    CodesAreDisjoint(f.code);
    if f in AdvisoryFindings(page) { ClassFindingsAre(Advisory, p, Kept(Unfenced, lines), f); }
    if f in BinaryFindings(page) { ClassFindingsAre(Binary, p, Kept(Unfenced, lines), f); }
    if f in ProseFindings(page) {
      if f in ClassFindings(Punctuation, p, Kept(Prose, lines)) { ClassFindingsAre(Punctuation, p, Kept(Prose, lines), f); }
      else { ClassFindingsAre(Banned, p, Kept(Every, lines), f); }
    }
  }

  /** Some page of the list has the finding's path, and exempts its group or not. */
  ghost predicate FromPage(pages: seq<Page>, f: Finding, exempted: bool) {
    exists p :: p in pages && p.path == f.page && (GroupName(f.code) in Groups(p)) == exempted
  }

  lemma ShareFindings(page: Page, f: Finding)
    ensures f in Gated(page) ==> GroupName(f.code) != "advisory" && FromPage([page], f, false)
    ensures f in AdvisoryFindings(page) + Routed(page) && GroupName(f.code) != "advisory" ==> FromPage([page], f, true)
  {
    hide AdvisoryFindings, BinaryFindings, ProseFindings, Groups;
    FindingsOfPage(page, f);
    assert page in [page];
  }

  lemma FromMorePages(front: seq<Page>, page: Page, f: Finding, exempted: bool)
    ensures FromPage(front, f, exempted) || FromPage([page], f, exempted) ==> FromPage(front + [page], f, exempted)
  {
    hide GroupName, Groups;
  }

  /** A scan that goes through ends with the last page's share. */
  lemma OverLast(pages: seq<Page>, advisory: bool)
    requires pages != [] && Over(pages, advisory).Ok?
    ensures var page, front := pages[|pages| - 1], Over(pages[..|pages| - 1], advisory);
            && front.Ok?
            && Over(pages, advisory).value
            == front.value + if advisory then AdvisoryFindings(page) + Routed(page) else Gated(page)
  {
    hide Exempt, Visible, AdvisoryFindings, Gated, Routed;
  }

  /** A gated finding is of a group its page does not exempt, a routed one of a group it does. */
  lemma {:induction false} ReportedBy(pages: seq<Page>, f: Finding)
    requires Over(pages, false).Ok?
    ensures Over(pages, true).Ok?
    ensures f in Over(pages, false).value ==> GroupName(f.code) != "advisory" && FromPage(pages, f, false)
    ensures f in Over(pages, true).value && GroupName(f.code) != "advisory" ==> FromPage(pages, f, true)
  {
    ScansRefuseTogether(pages);
    hide Exempt, Visible, AdvisoryFindings, Gated, Routed, FromPage, GroupName, Groups;
    if pages != [] {
      var n := |pages| - 1;
      OverLast(pages, false);
      OverLast(pages, true);
      hide Over;
      assert pages == pages[..n] + [pages[n]];
      ReportedBy(pages[..n], f);
      ShareFindings(pages[n], f);
      FromMorePages(pages[..n], pages[n], f, false);
      FromMorePages(pages[..n], pages[n], f, true);
    }
  }

  /** So on a list of distinct pages no finding of the gate's groups is reported by both scans. */
  lemma ScansAreDisjoint(pages: seq<Page>, f: Finding)
    requires Over(pages, false).Ok? && Over(pages, true).Ok?
    requires forall p, q | p in pages && q in pages && p.path == q.path :: p == q
    ensures !(f in Over(pages, false).value && f in Over(pages, true).value)
  {
    ScansRefuseTogether(pages);
    ReportedBy(pages, f);
    hide Over, Exempt, Visible;
  }
}
