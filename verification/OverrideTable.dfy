/**
 The generated region of pyproject.toml: rendering a table of suppressions, reading it back,
 and splicing it into the file.
 */
module OverrideTable {
  import opened Wrappers
  import opened Text
  import Layout = Lines

  /** One suppression: a rule in a file. */
  datatype Pair = Pair(path: string, rule: string)

  type Table = set<Pair>

  // The long lines are put together from pieces, so that a proof can look at one piece at a time.
  const MARKER := "#" + " === GENERATED ty overrides" + " -- do not hand-edit; see " + "scripts/generate_ty_" + "overrides.py ==="
  const END_MARKER := "# === END GENERATED ty " + "overrides -- nothing may" + " be added below this line ==="
  const NOTE := "# (the warning against " + "content below the end marker)"
  const NL := "\n"

  // ----- sorting, as Python's `sorted` on a set of strings

  predicate Less(a: string, b: string) {
    if b == "" then false
    else if a == "" then true
    else a[0] < b[0] || (a[0] == b[0] && Less(a[1..], b[1..]))
  }

  lemma {:induction false} LessTotal(a: string, b: string)
    ensures a == b || Less(a, b) || Less(b, a)
    decreases |a|
  {
    if a != "" && b != "" && a[0] == b[0] {
      LessTotal(a[1..], b[1..]);
      assert a == [a[0]] + a[1..] && b == [b[0]] + b[1..];
    }
  }

  lemma {:induction false} LessTransitive(a: string, b: string, c: string)
    requires Less(a, b) && Less(b, c)
    ensures Less(a, c)
    decreases |a|
  {
    if a != "" && a[0] == b[0] == c[0] { LessTransitive(a[1..], b[1..], c[1..]); }
  }

  lemma {:induction false} LessIrreflexive(a: string)
    ensures !Less(a, a)
  {
    if a != "" { LessIrreflexive(a[1..]); }
  }

  /** Up to `k` the texts agree, and there the first one ends or has the smaller character. */
  predicate LessAt(a: string, b: string, k: nat) {
    k <= |a| && k < |b| && a[..k] == b[..k] && (k == |a| || a[k] < b[k])
  }

  /** One text is less than another when it is a proper prefix of it, or smaller at the first character where they differ. */
  lemma LessExactly(a: string, b: string)
    ensures Less(a, b) <==> exists k: nat :: LessAt(a, b, k)
  {
    if Less(a, b) { var k := WhereLess(a, b); }
    if k: nat :| LessAt(a, b, k) { IsLess(a, b, k); }
  }

  lemma {:induction false} WhereLess(a: string, b: string) returns (k: nat)
    requires Less(a, b)
    ensures LessAt(a, b, k)
    decreases |a|
  {
    if a == "" || a[0] < b[0] {
      k := 0;
    } else {
      var rest := WhereLess(a[1..], b[1..]);
      k := rest + 1;
      assert a[..k] == [a[0]] + a[1..][..rest] && b[..k] == [b[0]] + b[1..][..rest];
    }
  }

  lemma {:induction false} IsLess(a: string, b: string, k: nat)
    requires LessAt(a, b, k)
    ensures Less(a, b)
    decreases k
  {
    if k > 0 {
      assert a[..k][0] == a[0] && b[..k][0] == b[0];
      assert a[1..][..k - 1] == a[..k][1..] && b[1..][..k - 1] == b[..k][1..];
      IsLess(a[1..], b[1..], k - 1);
    }
  }

  predicate IsLeast(x: string, s: set<string>) {
    x in s && forall y | y in s :: y == x || Less(x, y)
  }

  lemma {:induction false} LeastExists(s: set<string>) returns (x: string)
    requires s != {}
    ensures IsLeast(x, s)
    decreases |s|
  {
    var z :| z in s;
    var rest := s - {z};
    if rest == {} {
      x := z;
      assert s == {z};
    } else {
      var m := LeastExists(rest);
      LessTotal(z, m);
      x := if Less(z, m) then z else m;
      forall y | y in s ensures y == x || Less(x, y) {
        if x == z && y != z && y != m { LessTransitive(z, m, y); }
      }
    }
  }

  lemma LeastUnique(x: string, y: string, s: set<string>)
    requires IsLeast(x, s) && IsLeast(y, s)
    ensures x == y
  {
    if x != y {
      LessTransitive(x, y, x);
      LessIrreflexive(x);
    }
  }

  lemma OneLeast(s: set<string>)
    requires s != {}
    ensures exists x :: IsLeast(x, s)
    ensures forall x, y | IsLeast(x, s) && IsLeast(y, s) :: x == y
  {
    var w := LeastExists(s);
    forall x, y | IsLeast(x, s) && IsLeast(y, s) ensures x == y { LeastUnique(x, y, s); }
  }

  function Least(s: set<string>): (x: string)
    requires s != {}
    ensures IsLeast(x, s)
  {
    OneLeast(s);
    var x :| IsLeast(x, s);
    x
  }

  function Sorted(s: set<string>): seq<string>
    decreases |s|
  {
    if s == {} then [] else [Least(s)] + Sorted(s - {Least(s)})
  }

  lemma {:induction false} SortedHolds(s: set<string>)
    ensures forall x :: x in Sorted(s) <==> x in s
    ensures forall i, j | 0 <= i < j < |Sorted(s)| :: Less(Sorted(s)[i], Sorted(s)[j])
    decreases |s|
  {
    if s != {} {
      var m := Least(s);
      var rest := Sorted(s - {m});
      SortedHolds(s - {m});
      forall i, j | 0 <= i < j < |Sorted(s)| ensures Less(Sorted(s)[i], Sorted(s)[j]) {
        if i == 0 {
          assert Sorted(s)[j] == rest[j - 1] && rest[j - 1] in rest;
        }
      }
    }
  }

  // ----- rendering

  function Paths(table: Table): set<string> {
    set p | p in table :: p.path
  }

  function RulesOf(table: Table, path: string): set<string> {
    set p | p in table && p.path == path :: p.rule
  }

  const INCLUDE := "include = [\""
  const INCLUDE_END := "\"]"
  const IGNORE := " = \"ignore\""

  function RuleLines(rules: seq<string>): seq<string> {
    if rules == [] then [] else [rules[0] + IGNORE] + RuleLines(rules[1..])
  }

  /** The block of one file. */
  function Block(path: string, rules: seq<string>): seq<string> {
    ["", "[[tool.ty.overrides]]", INCLUDE + path + INCLUDE_END, "", "[tool.ty.overrides.rules]"] + RuleLines(rules)
  }

  function Blocks(table: Table, paths: seq<string>): seq<string> {
    if paths == [] then [] else Block(paths[0], Sorted(RulesOf(table, paths[0]))) + Blocks(table, paths[1..])
  }

  /** The lines below the marker line. */
  function BodyLines(table: Table): seq<string> {
    [NOTE] + Blocks(table, Sorted(Paths(table))) + ["", END_MARKER]
  }

  /** The rendered region: the marker, the note, one block per file in order, and the end marker. */
  function Render(table: Table): string {
    MARKER + NL + Layout.Unlines(BodyLines(table))
  }

  // ----- reading a region back

  /** The text between a prefix and a suffix. */
  function Unwrap(line: string, pre: string, post: string): Option<string> {
    if pre <= line && |pre| + |post| <= |line| && line[|line| - |post|..] == post
    then Some(line[|pre|..|line| - |post|]) else None
  }

  lemma UnwrapOf(pre: string, m: string, post: string)
    ensures Unwrap(pre + m + post, pre, post) == Some(m)
  {
    var line := pre + m + post;
    assert line[|line| - |post|..] == post;
  }

  predicate RuleChar(c: char) {
    'a' <= c <= 'z' || c == '-'
  }

  predicate IsRule(r: string) {
    r != "" && forall i | 0 <= i < |r| :: RuleChar(r[i])
  }

  /** A reader's state: the file of the block being read, and the suppressions so far. */
  datatype Reading = Reading(current: Option<string>, table: Table)

  function ReadLine(st: Reading, line: string): Reading {
    if Unwrap(line, INCLUDE, INCLUDE_END).Some? then st.(current := Unwrap(line, INCLUDE, INCLUDE_END))
    else
      match Unwrap(line, "", IGNORE)
      case Some(rule) => if IsRule(rule) && st.current.Some? then st.(table := st.table + {Pair(st.current.value, rule)}) else st
      case None => st
  }

  function ReadLines(st: Reading, lines: seq<string>): Reading
    decreases |lines|
  {
    if lines == [] then st else ReadLines(ReadLine(st, lines[0]), lines[1..])
  }

  /** The lines of a text, cut at every line feed. */
  function CutLines(t: string): seq<string>
    decreases |t|
  {
    match Cut(t, NL)
    case None => [t]
    case Some((line, rest)) => [line] + CutLines(rest)
  }

  /** The suppressions the type checker finds below the marker of a file; none without a marker. */
  function TableOf(text: string): Table {
    match Cut(text, MARKER)
    case None => {}
    case Some((_, below)) => ReadLines(Reading(None, {}), CutLines(below)).table
  }

  /** Paths and rules of a shape that needs no escaping; the diagnostic pattern yields such rules. */
  predicate Writable(p: Pair) {
    IsRule(p.rule) && '\n' !in p.path && '"' !in p.path && '\\' !in p.path
  }

  /** Rules are lower-case letters and dashes; paths are free of line feeds, quotation marks and backslashes. */
  lemma WritableExactly(p: Pair)
    ensures Writable(p)
       <==> && p.rule != "" && (forall i | 0 <= i < |p.rule| :: 97 <= p.rule[i] as int <= 122 || p.rule[i] as int == 45)
            && forall i | 0 <= i < |p.path| :: p.path[i] as int !in {10, 34, 92}
  {
    assert '-' as int == 45 && '"' as int == 34 && '\\' as int == 92 && '\n' as int == 10;
  }

  predicate AllWritable(table: Table) {
    forall p | p in table :: Writable(p)
  }

  lemma {:induction false} ReadAppend(st: Reading, a: seq<string>, b: seq<string>)
    ensures ReadLines(st, a + b) == ReadLines(ReadLines(st, a), b)
    decreases |a|
  {
    if a == [] {
      assert a + b == b;
    } else {
      assert (a + b)[1..] == a[1..] + b;
      ReadAppend(ReadLine(st, a[0]), a[1..], b);
    }
  }

  lemma ReadCons(st: Reading, line: string, rest: seq<string>)
    ensures ReadLines(st, [line] + rest) == ReadLines(ReadLine(st, line), rest)
  {
    hide ReadLine;
    assert ([line] + rest)[1..] == rest;
  }

  /** A line that opens no block and names no rule. */
  predicate Quiet(line: string) {
    line == "" || (line[0] in "#[" && line[|line| - 1] != '"')
  }

  lemma QuietLine(st: Reading, line: string, rest: seq<string>)
    requires Quiet(line)
    ensures ReadLines(st, [line] + rest) == ReadLines(st, rest)
  {
    ReadCons(st, line, rest);
    assert INCLUDE[0] == 'i' && IGNORE[|IGNORE| - 1] == '"';
    var n := |line|;
    assert n >= |IGNORE| ==> line[n - |IGNORE|..][|IGNORE| - 1] == line[n - 1];
  }

  lemma QuietLines()
    ensures Quiet("") && Quiet("[[tool.ty.overrides]]") && Quiet("[tool.ty.overrides.rules]")
    ensures Quiet(NOTE) && Quiet(END_MARKER) && '\n' !in NOTE && '\n' !in END_MARKER
  {
    QuietNote();
    QuietEnd();
    hide NOTE, END_MARKER;
  }

  lemma QuietNote()
    ensures Quiet(NOTE) && '\n' !in NOTE
  {
    assert NOTE[0] == '#' && NOTE[|NOTE| - 1] == ')';
    assert '\n' !in "# (the warning against " && '\n' !in "content below the end marker)";
  }

  lemma QuietEnd()
    ensures Quiet(END_MARKER) && '\n' !in END_MARKER
  {
    assert END_MARKER[0] == '#' && END_MARKER[|END_MARKER| - 1] == '=';
    assert '\n' !in "# === END GENERATED ty " && '\n' !in "overrides -- nothing may" && '\n' !in " be added below this line ===";
  }

  lemma IncludeLine(st: Reading, path: string)
    ensures ReadLine(st, INCLUDE + path + INCLUDE_END) == st.(current := Some(path))
  {
    UnwrapOf(INCLUDE, path, INCLUDE_END);
  }

  lemma RuleLine(st: Reading, rule: string)
    requires IsRule(rule) && st.current.Some?
    ensures ReadLine(st, rule + IGNORE) == st.(table := st.table + {Pair(st.current.value, rule)})
  {
    var line := rule + IGNORE;
    UnwrapOf("", rule, IGNORE);
    assert "" + rule + IGNORE == line;
    NoBracket(rule);
  }

  lemma NoBracket(rule: string)
    requires IsRule(rule)
    ensures !(INCLUDE <= rule + IGNORE)
  {
    var line := rule + IGNORE;
    assert INCLUDE[11 - 1] == '[';
    assert forall i | 0 <= i < |line| :: line[i] != '[';
  }

  lemma {:induction false} ReadRuleLines(path: string, table: Table, rules: seq<string>)
    requires forall r | r in rules :: IsRule(r)
    ensures ReadLines(Reading(Some(path), table), RuleLines(rules))
         == Reading(Some(path), table + set r | r in rules :: Pair(path, r))
    decreases |rules|
  {
    if rules == [] {
      assert table + (set r | r in rules :: Pair(path, r)) == table;
    } else {
      assert rules[0] in rules;
      RuleLine(Reading(Some(path), table), rules[0]);
      var more := table + {Pair(path, rules[0])};
      ReadRuleLines(path, more, rules[1..]);
      assert rules == [rules[0]] + rules[1..];
      assert table + (set r | r in rules :: Pair(path, r)) == more + set r | r in rules[1..] :: Pair(path, r);
    }
  }

  lemma ReadBlock(st: Reading, path: string, rules: seq<string>)
    requires forall r | r in rules :: IsRule(r)
    ensures ReadLines(st, Block(path, rules)) == Reading(Some(path), st.table + set r | r in rules :: Pair(path, r))
  {
    hide ReadLine, ReadLines, INCLUDE, INCLUDE_END;
    QuietLines();
    var pathLine := INCLUDE + path + INCLUDE_END;
    var l4 := ["[tool.ty.overrides.rules]"] + RuleLines(rules);
    var l3 := [""] + l4;
    var l2 := [pathLine] + l3;
    var l1 := ["[[tool.ty.overrides]]"] + l2;
    assert Block(path, rules) == [""] + l1;
    QuietLine(st, "", l1);
    QuietLine(st, "[[tool.ty.overrides]]", l2);
    ReadCons(st, pathLine, l3);
    IncludeLine(st, path);
    var inside := st.(current := Some(path));
    QuietLine(inside, "", l4);
    QuietLine(inside, "[tool.ty.overrides.rules]", RuleLines(rules));
    ReadRuleLines(path, st.table, rules);
  }

  lemma {:induction false} ReadBlocks(st: Reading, table: Table, paths: seq<string>)
    requires AllWritable(table)
    ensures ReadLines(st, Blocks(table, paths)).table == st.table + set p | p in table && p.path in paths
    decreases |paths|
  {
    if paths == [] {
      assert (set p | p in table && p.path in paths) == {};
    } else {
      var path := paths[0];
      var rules := Sorted(RulesOf(table, path));
      SortedHolds(RulesOf(table, path));
      var block, rest := Block(path, rules), Blocks(table, paths[1..]);
      ReadBlock(st, path, rules);
      ReadAppend(st, block, rest);
      ReadBlocks(ReadLines(st, block), table, paths[1..]);
      assert (set r | r in rules :: Pair(path, r)) == set p | p in table && p.path == path by {
        forall p | p in table && p.path == path ensures p in set r | r in rules :: Pair(path, r) {
          assert p.rule in RulesOf(table, path) && p.rule in rules && p == Pair(path, p.rule);
        }
      }
      assert paths == [path] + paths[1..];
      assert (set p | p in table && p.path in paths)
          == (set p | p in table && p.path == path) + set p | p in table && p.path in paths[1..];
    }
  }

  // ----- lines and texts

  ghost predicate LineFree(lines: seq<string>) {
    forall l | l in lines :: '\n' !in l
  }

  lemma LinesFirst(line: string, rest: string)
    requires '\n' !in line
    ensures CutLines(line + NL + rest) == [line] + CutLines(rest)
  {
    LacksChar(line, NL, '\n');
    CutAt(line, NL, rest);
  }

  lemma {:induction false} CutUnlines(lines: seq<string>)
    requires LineFree(lines)
    ensures CutLines(Layout.Unlines(lines)) == lines + [""]
    decreases |lines|
  {
    if lines == [] {
      LacksChar("", NL, '\n');
    } else {
      assert lines[0] in lines;
      LinesFirst(lines[0], Layout.Unlines(lines[1..]));
      CutUnlines(lines[1..]);
      assert lines == [lines[0]] + lines[1..];
    }
  }

  lemma {:induction false} RuleLinesFree(rules: seq<string>)
    requires forall r | r in rules :: IsRule(r)
    ensures LineFree(RuleLines(rules))
  {
    if rules != [] {
      assert rules[0] in rules;
      RuleLinesFree(rules[1..]);
      var l := rules[0] + IGNORE;
      assert '\n' !in IGNORE && '\n' !in rules[0];
      assert '\n' !in l;
    }
  }

  lemma {:induction false} BlocksFree(table: Table, paths: seq<string>)
    requires AllWritable(table) && forall p | p in paths :: p in Paths(table)
    ensures LineFree(Blocks(table, paths))
    decreases |paths|
  {
    if paths != [] {
      var path := paths[0];
      assert path in paths;
      var pair :| pair in table && pair.path == path;
      assert Writable(pair);
      SortedHolds(RulesOf(table, path));
      var rules := Sorted(RulesOf(table, path));
      forall r | r in rules ensures IsRule(r) {
        var p :| p in table && p.path == path && p.rule == r;
      }
      RuleLinesFree(rules);
      assert '\n' !in INCLUDE + path + INCLUDE_END;
      assert LineFree(Block(path, rules));
      BlocksFree(table, paths[1..]);
    }
  }

  lemma BodyFree(table: Table)
    requires AllWritable(table)
    ensures LineFree(BodyLines(table))
  {
    hide NOTE, END_MARKER;
    SortedHolds(Paths(table));
    BlocksFree(table, Sorted(Paths(table)));
    QuietLines();
  }

  /** Reading what was rendered gives the table back, wherever the region stands. */
  lemma RenderReadsBack(before: string, table: Table)
    requires AllWritable(table) && !Contains(before, MARKER)
    ensures TableOf(before + Render(table)) == table
  {
    var body := BodyLines(table);
    var below := NL + Layout.Unlines(body);
    MarkerShape();
    CutBelow(before, MARKER, Layout.Unlines(body));
    BodyFree(table);
    assert "" + NL + Layout.Unlines(body) == below;
    LinesFirst("", Layout.Unlines(body));
    CutUnlines(body);
    ReadBody(table);
  }

  lemma CutBelow(before: string, marker: string, rest: string)
    requires HeadUnique(marker) && !Contains(before, marker)
    ensures Cut(before + (marker + NL + rest), marker) == Some((before, NL + rest))
  {
    CutAt(before, marker, NL + rest);
    assert before + (marker + NL + rest) == before + marker + (NL + rest);
  }

  lemma ReadBody(table: Table)
    requires AllWritable(table)
    ensures ReadLines(Reading(None, {}), [""] + (BodyLines(table) + [""])).table == table
  {
    var start := Reading(None, {});
    var paths := Sorted(Paths(table));
    var blocks := Blocks(table, paths);
    hide NOTE, END_MARKER, ReadLine, ReadLines;
    QuietLines();
    var end := ["", END_MARKER, ""];
    assert [""] + (BodyLines(table) + [""]) == [""] + ([NOTE] + (blocks + end));
    QuietLine(start, "", [NOTE] + (blocks + end));
    QuietLine(start, NOTE, blocks + end);
    ReadAppend(start, blocks, end);
    ReadBlocks(start, table, paths);
    var st := ReadLines(start, blocks);
    assert end == [""] + ([END_MARKER] + ([""] + []));
    QuietLine(st, "", [END_MARKER] + ([""] + []));
    QuietLine(st, END_MARKER, [""] + []);
    QuietLine(st, "", []);
    ReadNothing(st);
    SortedHolds(Paths(table));
    assert (set p | p in table && p.path in paths) == table;
  }

  lemma ReadNothing(st: Reading)
    ensures ReadLines(st, []) == st
  {
  }

  // ----- the splice

  lemma MarkerShape()
    ensures HeadUnique(MARKER) && '\n' !in MARKER
  {
    var a, b := " === GENERATED ty overrides" + " -- do not hand-edit; see ", "scripts/generate_ty_" + "overrides.py ===";
    FirstHalf();
    SecondHalf();
    OneHash(a + b);
    assert MARKER == "#" + (a + b);
  }

  lemma FirstHalf()
    ensures var a := " === GENERATED ty overrides" + " -- do not hand-edit; see ";
            '#' !in a && '\n' !in a
  {
    var p, q := " === GENERATED ty overrides", " -- do not hand-edit; see ";
    assert '#' !in p && '#' !in q && '\n' !in p && '\n' !in q;
  }

  lemma SecondHalf()
    ensures var a := "scripts/generate_ty_" + "overrides.py ===";
            '#' !in a && '\n' !in a
  {
    var p, q := "scripts/generate_ty_", "overrides.py ===";
    assert '#' !in p && '#' !in q && '\n' !in p && '\n' !in q;
  }

  lemma OneHash(tail: string)
    requires '#' !in tail && '\n' !in tail
    ensures HeadUnique("#" + tail) && '\n' !in "#" + tail
  {
    assert ("#" + tail)[1..] == tail;
  }

  /** `t.rstrip("\n")`. */
  function RStrip(t: string): (r: string)
    ensures r <= t
  {
    if t != "" && t[|t| - 1] == '\n' then RStrip(t[..|t| - 1]) else t
  }

  /** Everything above the first marker. */
  function Above(text: string): string {
    match Cut(text, MARKER)
    case Some((head, _)) => head
    case None => text
  }

  function Splice(text: string, body: string): string {
    RStrip(Above(text)) + NL + NL + body
  }

  lemma AboveHasNoMarker(text: string)
    ensures !Contains(Above(text), MARKER)
  {
    MarkerShape();
    hide MARKER;
    if Contains(Above(text), MARKER) {
      var (a, b) := Cut(text, MARKER).value;
      assert text == a + (MARKER + b);
      assert |Cut(a, MARKER).value.0| < |a|;
      CutInFront(a, MARKER, MARKER + b);
    }
  }

  lemma PrefixHasNoMarker(t: string, p: string)
    requires p <= t && !Contains(t, MARKER)
    ensures !Contains(p, MARKER)
  {
    hide MARKER;
    if Contains(p, MARKER) {
      assert t == p + t[|p|..];
      CutInFront(p, MARKER, t[|p|..]);
    }
  }

  lemma LastOf(a: string, w: string, b: string)
    requires w != ""
    ensures var u := a + w + b;
            u[|u| - 1] == if b == "" then w[|w| - 1] else b[|b| - 1]
  {
  }

  /** A line feed after a text completes no occurrence of a word without line feeds. */
  lemma NewlineAddsNoMarker(t: string, w: string)
    requires w != "" && '\n' !in w && !Contains(t, w)
    ensures !Contains(t + NL, w)
  {
    var r := Cut(t + NL, w);
    if r.Some? {
      var (a, b) := r.value;
      var u := a + w + b;
      assert u == t + NL;
      assert u[|u| - 1] == '\n' && w[|w| - 1] in w;
      LastOf(a, w, b);
      assert b != "" && b[|b| - 1] == '\n';
      assert t == u[..|u| - 1] == a + w + b[..|b| - 1];
      Occurs(a, w, b[..|b| - 1]);
    }
  }

  lemma HeadHasNoMarker(text: string)
    ensures !Contains(RStrip(Above(text)) + NL + NL, MARKER)
  {
    MarkerShape();
    hide MARKER;
    AboveHasNoMarker(text);
    PrefixHasNoMarker(Above(text), RStrip(Above(text)));
    NewlineAddsNoMarker(RStrip(Above(text)), MARKER);
    NewlineAddsNoMarker(RStrip(Above(text)) + NL, MARKER);
  }

  lemma RStripTwo(t: string)
    ensures RStrip(t + NL + NL) == RStrip(t)
  {
    assert (t + NL)[..|t|] == t && (t + NL + NL)[..|t| + 1] == t + NL;
  }

  lemma {:induction false} RStripIdempotent(t: string)
    ensures RStrip(RStrip(t)) == RStrip(t)
    decreases |t|
  {
    if t != "" && t[|t| - 1] == '\n' { RStripIdempotent(t[..|t| - 1]); }
  }

  /** After a splice the text above the marker is the old text above it, up to trailing line feeds. */
  lemma SpliceKeepsAbove(text: string, rest: string)
    ensures Above(Splice(text, MARKER + rest)) == RStrip(Above(text)) + NL + NL
    ensures RStrip(Above(Splice(text, MARKER + rest))) == RStrip(Above(text))
  {
    MarkerShape();
    hide MARKER;
    var head := RStrip(Above(text)) + NL + NL;
    HeadHasNoMarker(text);
    CutAt(head, MARKER, rest);
    assert Splice(text, MARKER + rest) == head + MARKER + rest;
    RStripTwo(RStrip(Above(text)));
    RStripIdempotent(Above(text));
  }

  /** The last splice wins: splicing a second region over a first is splicing the second directly. */
  lemma SpliceLastWins(text: string, first: string, body: string)
    ensures Splice(Splice(text, MARKER + first), body) == Splice(text, body)
  {
    SpliceKeepsAbove(text, first);
  }

  /** After a splice the checker reads exactly the spliced table. */
  lemma SplicedTable(text: string, table: Table)
    requires AllWritable(table)
    ensures TableOf(Splice(text, Render(table))) == table
  {
    HeadHasNoMarker(text);
    RenderReadsBack(RStrip(Above(text)) + NL + NL, table);
  }

  lemma SpliceRenderLastWins(text: string, first: Table, body: string)
    ensures Splice(Splice(text, Render(first)), body) == Splice(text, body)
  {
    hide MARKER;
    var rest := NL + Layout.Unlines(BodyLines(first));
    assert Render(first) == MARKER + rest;
    SpliceLastWins(text, rest, body);
  }

  // ----- the text of a region and of a spliced file

  lemma SortedOne(x: string)
    ensures Sorted({x}) == [x]
  {
    assert Least({x}) == x;
    assert {x} - {x} == {};
  }

  lemma SortedTwo(x: string, y: string)
    requires Less(x, y)
    ensures x != y && Sorted({x, y}) == [x, y]
  {
    LessIrreflexive(x);
    if Less(y, x) { LessTransitive(x, y, x); }
    assert Least({x, y}) == x;
    assert {x, y} - {x} == {y};
    SortedOne(y);
  }

  lemma OneRule(rule: string)
    ensures RuleLines([rule]) == [rule + " = \"ignore\""]
  {
    assert [rule][1..] == [];
  }

  /** Two files, in order: each has its own block, with the path in an array and the rule switched off under it. */
  lemma TwoFilesRendered(p: string, r: string, q: string, s: string)
    requires Less(p, q)
    ensures BodyLines({Pair(p, r), Pair(q, s)})
         == [NOTE,
             "", "[[tool.ty.overrides]]", "include = [\"" + p + "\"]", "", "[tool.ty.overrides.rules]", r + " = \"ignore\"",
             "", "[[tool.ty.overrides]]", "include = [\"" + q + "\"]", "", "[tool.ty.overrides.rules]", s + " = \"ignore\"",
             "", END_MARKER]
  {
    hide MARKER, NOTE, END_MARKER, Sorted, Blocks, Block, Layout.Unlines;
    var table := {Pair(p, r), Pair(q, s)};
    SortedTwo(p, q);
    assert Paths(table) == {p, q} && RulesOf(table, p) == {r} && RulesOf(table, q) == {s};
    SortedOne(r);
    SortedOne(s);
    TwoBlocks(table, p, q);
    BlockText(p, r);
    BlockText(q, s);
    assert BodyLines(table) == [NOTE] + (Block(p, [r]) + Block(q, [s])) + ["", END_MARKER];
  }

  /** A region is the marker line and those lines, each ended by a line feed. */
  lemma RegionText(table: Table)
    ensures Render(table) == MARKER + "\n" + Layout.Join(BodyLines(table)) + "\n"
  {
    Layout.UnlinesJoin(BodyLines(table));
    hide MARKER, Layout.Join, Layout.Unlines, BodyLines;
    assert MARKER + "\n" + (Layout.Join(BodyLines(table)) + "\n") == MARKER + "\n" + Layout.Join(BodyLines(table)) + "\n";
  }

  lemma BlockText(p: string, r: string)
    ensures Block(p, [r])
         == ["", "[[tool.ty.overrides]]", "include = [\"" + p + "\"]", "", "[tool.ty.overrides.rules]", r + " = \"ignore\""]
  {
    OneRule(r);
    hide RuleLines;
  }

  lemma TwoBlocks(table: Table, p: string, q: string)
    ensures Blocks(table, [p, q]) == Block(p, Sorted(RulesOf(table, p))) + Block(q, Sorted(RulesOf(table, q)))
  {
    hide Block, Sorted;
    assert [p, q][1..] == [q] && [q][1..] == [];
    assert Blocks(table, []) == [];
    assert Blocks(table, [q]) == Block(q, Sorted(RulesOf(table, q))) + [];
  }

  /** Two rules of one file stand in one block, in order. */
  lemma TwoRulesRendered(p: string, r: string, s: string)
    requires Less(r, s)
    ensures BodyLines({Pair(p, r), Pair(p, s)})
         == [NOTE, "", "[[tool.ty.overrides]]", "include = [\"" + p + "\"]", "", "[tool.ty.overrides.rules]",
             r + " = \"ignore\"", s + " = \"ignore\"", "", END_MARKER]
  {
    hide MARKER, NOTE, END_MARKER;
    var table := {Pair(p, r), Pair(p, s)};
    SortedTwo(r, s);
    SortedOne(p);
    assert Paths(table) == {p} && RulesOf(table, p) == {r, s};
    assert [p][1..] == [] && Blocks(table, []) == [];
    assert [r, s][1..] == [s];
    OneRule(s);
    hide Sorted;
    assert RuleLines([r, s]) == [r + " = \"ignore\""] + RuleLines([s]);
  }

  /** Splicing keeps what is in front of the first marker, less its trailing line feeds, and puts one empty line before the region. */
  lemma SpliceExactly(head: string, feeds: string, below: string, body: string)
    requires !Contains(head + feeds, MARKER)
    requires (head == "" || head[|head| - 1] != '\n') && forall c | c in feeds :: c == '\n'
    ensures Splice(head + feeds + MARKER + below, body) == head + "\n\n" + body
    ensures Splice(head + feeds, body) == head + "\n\n" + body
  {
    MarkerShape();
    hide MARKER;
    CutAt(head + feeds, MARKER, below);
    RStripFeeds(head, feeds);
  }

  lemma {:induction false} RStripFeeds(head: string, feeds: string)
    requires (head == "" || head[|head| - 1] != '\n') && forall c | c in feeds :: c == '\n'
    ensures RStrip(head + feeds) == head
    decreases |feeds|
  {
    if feeds == "" {
      assert head + feeds == head;
    } else {
      var n := |feeds| - 1;
      assert feeds[n] in feeds && (head + feeds)[|head| + n] == '\n';
      assert (head + feeds)[..|head| + n] == head + feeds[..n];
      assert forall c | c in feeds[..n] :: c in feeds;
      RStripFeeds(head, feeds[..n]);
    }
  }

  // ----- where an end marker can stand

  /** A word without line feeds stands in one of the parts that a line feed separates. */
  lemma InOnePart(a: string, b: string, w: string)
    requires w != "" && '\n' !in w
    ensures Contains(a + NL + b, w) <==> Contains(a, w) || Contains(b, w)
  {
    var t := a + NL + b;
    ContainsMeaning(t, w);
    ContainsMeaning(a, w);
    ContainsMeaning(b, w);
    hide Cut, Contains;
    if x, y :| t == x + w + y {
      assert t[|a|] == '\n' && forall i | 0 <= i < |w| :: t[|x| + i] == w[i] && w[i] != '\n';
      assert forall i | |x| <= i < |x| + |w| :: t[i] == t[|x| + (i - |x|)] && t[i] != '\n';
      if |a| < |x| {
        assert b == t[|a| + 1..] == x[|a| + 1..] + w + y;
      } else {
        assert a == t[..|a|] == x + w + y[..|a| - |x| - |w|];
      }
    }
    if x, y :| a == x + w + y { assert t == x + w + (y + NL + b); }
    if x, y :| b == x + w + y { assert t == (a + NL + x) + w + y; }
  }

  lemma {:induction false} InSomeLine(lines: seq<string>, w: string)
    requires w != "" && '\n' !in w
    ensures Contains(Layout.Unlines(lines), w) <==> exists l | l in lines :: Contains(l, w)
    decreases |lines|
  {
    hide Cut, Contains;
    if lines == [] {
      LacksChar("", w, w[0]);
    } else {
      InOnePart(lines[0], Layout.Unlines(lines[1..]), w);
      InSomeLine(lines[1..], w);
      assert lines == [lines[0]] + lines[1..];
    }
  }

  /** A word whose characters are none of those around a text stands in the whole exactly when it stands in the text. */
  lemma InTheMiddle(a: string, m: string, z: string, w: string)
    requires w != "" && w[0] !in a && forall c | c in w :: c !in z
    ensures Contains(a + m + z, w) <==> Contains(m, w)
  {
    var t := a + m + z;
    ContainsMeaning(t, w);
    ContainsMeaning(m, w);
    hide Cut, Contains;
    if x, y :| t == x + w + y {
      forall i | 0 <= i < |a| ensures t[i] != w[0] { assert t[i] == a[i] && a[i] in a; }
      assert t[|x|] == w[0];
      assert |x| >= |a|;
      var last := w[|w| - 1];
      assert last in w;
      forall i | |a| + |m| <= i < |t| ensures t[i] != last { assert t[i] == z[i - |a| - |m|] && z[i - |a| - |m|] in z; }
      assert t[|x| + |w| - 1] == last;
      assert |x| + |w| <= |a| + |m|;
      assert m == t[|a|..|a| + |m|] == x[|a|..] + w + y[..|a| + |m| - |x| - |w|];
    }
    if x, y :| m == x + w + y { assert t == (a + x) + w + (y + z); }
  }

  lemma EndMarkerShape()
    ensures END_MARKER != "" && END_MARKER[0] == '#' && '\n' !in END_MARKER && '"' !in END_MARKER && ']' !in END_MARKER
    ensures END_MARKER[2] == '=' && END_MARKER[6] == 'E' && HeadUnique(END_MARKER) && |END_MARKER| > 6
  {
    QuietEnd();
    EndTail();
  }

  lemma EndTail()
    ensures '#' !in END_MARKER[1..] && '"' !in END_MARKER && ']' !in END_MARKER
  {
    var a, b, c := "# === END GENERATED ty ", "overrides -- nothing may", " be added below this line ===";
    EndPieces();
    assert END_MARKER[1..] == a[1..] + b + c;
    assert END_MARKER == a + b + c;
    hide END_MARKER;
  }

  lemma EndPieces()
    ensures '#' !in "# === END GENERATED ty "[1..] && '"' !in "# === END GENERATED ty " && ']' !in "# === END GENERATED ty "
    ensures '#' !in "overrides -- nothing may" && '"' !in "overrides -- nothing may" && ']' !in "overrides -- nothing may"
    ensures '#' !in " be added below this line ===" && '"' !in " be added below this line ===" && ']' !in " be added below this line ==="
  {
    FirstPiece();
    SecondPiece();
    ThirdPiece();
  }

  lemma FirstPiece()
    ensures '#' !in "# === END GENERATED ty "[1..] && '"' !in "# === END GENERATED ty " && ']' !in "# === END GENERATED ty "
  {
  }

  lemma SecondPiece()
    ensures '#' !in "overrides -- nothing may" && '"' !in "overrides -- nothing may" && ']' !in "overrides -- nothing may"
  {
  }

  lemma ThirdPiece()
    ensures '#' !in " be added below this line ===" && '"' !in " be added below this line ===" && ']' !in " be added below this line ==="
  {
  }

  /** In a line with one hash, at its start, the end marker can only stand at the start. */
  lemma OnlyAtStart(line: string)
    requires HeadUnique(line) && line[0] == '#' && Contains(line, END_MARKER)
    ensures END_MARKER <= line
  {
    EndMarkerShape();
    ContainsMeaning(line, END_MARKER);
    hide END_MARKER, Cut, Contains;
    var x, y :| line == x + END_MARKER + y;
    assert line[|x|] == '#' && forall i | 0 < i < |line| :: line[i] == line[1..][i - 1] && line[i] != '#';
    assert x == "";
  }

  lemma OtherComment(line: string, i: nat)
    requires HeadUnique(line) && line[0] == '#' && i < |line| && i < |END_MARKER| && line[i] != END_MARKER[i]
    ensures !Contains(line, END_MARKER)
  {
    hide END_MARKER, Cut, Contains;
    if Contains(line, END_MARKER) {
      OnlyAtStart(line);
      assert false;
    }
  }

  lemma NoEndInComments()
    ensures !Contains(MARKER, END_MARKER) && !Contains(NOTE, END_MARKER)
  {
    MarkerShape();
    EndMarkerShape();
    assert MARKER[0] == '#' && MARKER[6] == 'G' && NOTE[0] == '#' && NOTE[2] == '(';
    NoteShape();
    hide MARKER, NOTE, END_MARKER;
    OtherComment(MARKER, 6);
    OtherComment(NOTE, 2);
  }

  lemma NoteShape()
    ensures HeadUnique(NOTE)
  {
    var a, b := "# (the warning against ", "content below the end marker)";
    NotePieces();
    assert NOTE[1..] == a[1..] + b && NOTE[0] == '#';
    hide NOTE;
  }

  lemma NotePieces()
    ensures '#' !in "# (the warning against "[1..] && '#' !in "content below the end marker)"
  {
    NoteStart();
    NoteEnd();
  }

  lemma NoteStart()
    ensures '#' !in "# (the warning against "[1..]
  {
  }

  lemma NoteEnd()
    ensures '#' !in "content below the end marker)"
  {
  }

  lemma NoHash(line: string)
    requires '#' !in line
    ensures !Contains(line, END_MARKER)
  {
    EndMarkerShape();
    hide END_MARKER;
    LacksChar(line, END_MARKER, '#');
  }

  /** In the blocks of a table the end marker stands only where a path holds it. */
  lemma {:induction false} EndInBlocks(table: Table, paths: seq<string>)
    requires AllWritable(table) && forall p | p in paths :: p in Paths(table)
    ensures (exists l | l in Blocks(table, paths) :: Contains(l, END_MARKER)) <==> exists p | p in paths :: Contains(p, END_MARKER)
    decreases |paths|
  {
    if paths != [] {
      var path := paths[0];
      var rules := Sorted(RulesOf(table, path));
      SortedHolds(RulesOf(table, path));
      forall r | r in rules ensures IsRule(r) {
        var p :| p in table && p.path == path && p.rule == r;
      }
      hide END_MARKER, Contains, Sorted;
      EndInBlocks(table, paths[1..]);
      EndInBlock(path, rules);
      assert Blocks(table, paths) == Block(path, rules) + Blocks(table, paths[1..]);
      assert paths == [path] + paths[1..];
      hide Block, Blocks;
    }
  }

  lemma EndInBlock(path: string, rules: seq<string>)
    requires forall r | r in rules :: IsRule(r)
    ensures (exists l | l in Block(path, rules) :: Contains(l, END_MARKER)) <==> Contains(path, END_MARKER)
  {
    EndMarkerShape();
    hide END_MARKER, Contains;
    NoHash("");
    NoHash("[[tool.ty.overrides]]");
    NoHash("[tool.ty.overrides.rules]");
    EndInRules(rules);
    assert '#' !in INCLUDE && INCLUDE_END == "\"]";
    InTheMiddle(INCLUDE, path, INCLUDE_END, END_MARKER);
    assert Block(path, rules)[2] == INCLUDE + path + INCLUDE_END;
  }

  lemma {:induction false} EndInRules(rules: seq<string>)
    requires forall r | r in rules :: IsRule(r)
    ensures forall l | l in RuleLines(rules) :: !Contains(l, END_MARKER)
    decreases |rules|
  {
    hide END_MARKER, Contains;
    if rules != [] {
      var rule := rules[0];
      assert rule in rules && !RuleChar('#');
      assert '#' !in rule && '#' !in IGNORE;
      NoHash(rule + IGNORE);
      EndInRules(rules[1..]);
    }
  }

  /** A region is its lines up to the end marker, and the end marker. */
  lemma RegionSplits(table: Table)
    ensures Render(table) == (MARKER + NL + Layout.Unlines([NOTE] + Blocks(table, Sorted(Paths(table))) + [""])) + END_MARKER + NL
  {
    hide MARKER, NOTE, END_MARKER, Blocks;
    var front := [NOTE] + Blocks(table, Sorted(Paths(table))) + [""];
    assert BodyLines(table) == front + [END_MARKER];
    UnlinesAppend(front, [END_MARKER]);
    assert [END_MARKER][1..] == [];
    assert Layout.Unlines([]) == "";
    assert Layout.Unlines([END_MARKER]) == END_MARKER + NL;
  }

  lemma {:induction false} UnlinesAppend(a: seq<string>, b: seq<string>)
    ensures Layout.Unlines(a + b) == Layout.Unlines(a) + Layout.Unlines(b)
    decreases |a|
  {
    if a == [] {
      assert a + b == b;
    } else {
      assert (a + b)[1..] == a[1..] + b;
      UnlinesAppend(a[1..], b);
    }
  }

  /** In front of a fresh region's own end marker there is another only where a path of the table holds one. */
  lemma EndInRegion(table: Table)
    requires AllWritable(table)
    ensures Contains(MARKER + NL + Layout.Unlines([NOTE] + Blocks(table, Sorted(Paths(table))) + [""]), END_MARKER)
       <==> exists p | p in table :: Contains(p.path, END_MARKER)
  {
    EndMarkerShape();
    NoEndInComments();
    SortedHolds(Paths(table));
    var paths := Sorted(Paths(table));
    EndInBlocks(table, paths);
    NoHash("");
    hide MARKER, NOTE, END_MARKER, Blocks, Sorted, Contains;
    var lines := [NOTE] + Blocks(table, paths) + [""];
    InOnePart(MARKER, Layout.Unlines(lines), END_MARKER);
    InSomeLine(lines, END_MARKER);
    if p :| p in table && Contains(p.path, END_MARKER) { assert p.path in Paths(table); }
  }
}
