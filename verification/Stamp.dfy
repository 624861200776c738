/**
 `--stamp`: one allowlist row appended to the text of the layout manifest. The manifest is read
 back by a line-by-line reader of its block style, so that what the command wrote can be compared
 with what the loader will see.
 */
module Stamp {
  import opened Wrappers
  import opened Lines
  import Allowlist

  const ALLOWLIST_KEY := "non_breaking_allowlist"
  const MANIFEST := "_layout_relevant_files.yaml"
  const PATH_FIELD := "  - path: "
  const SIGNATURE_FIELD := "    layout_signature: "
  const WHY_FIELD := "    justification: |-"
  const MARGIN := "      "

  /** A command-line path, as pathlib splits it. */
  datatype PathArg = PathArg(absolute: bool, parts: seq<string>)

  function Slashed(parts: seq<string>): string {
    if parts == [] then "" else if |parts| == 1 then parts[0] else parts[0] + "/" + Slashed(parts[1..])
  }

  /** `as_posix()` of a relative path. */
  function Posix(arg: PathArg): string {
    if arg.parts == [] then "." else Slashed(arg.parts)
  }

  /**
   What lies outside the command: where a path resolves to, the content hash of a file (None when
   it is absent), how YAML reads a plain scalar, and what it makes of a row in any other style.
   */
  datatype World = World(resolve: string -> string, digest: string -> Option<string>,
                         plain: string -> Allowlist.Yaml, other: seq<string> -> Allowlist.Yaml)

  datatype Refusal =
    | NeedsWhy | OutsideRepo | SelfTarget | TargetMissing | ManifestMissing
    | AllowlistNotLast(key: string) | Unparseable | RowNotLast

  // ----- the text that is written

  /** What stands before and after the first colon of a line. */
  function BeforeColon(line: string): (head: string)
    ensures head <= line && ':' !in head
  {
    if line == "" || line[0] == ':' then "" else [line[0]] + BeforeColon(line[1..])
  }

  /** The top-level key a line opens: not indented, no comment, no sequence item, and a name before a colon. */
  function TopLevelKey(line: string): Option<string> {
    if line == "" || line[0] in " \t#-" then None
    else
      var head := BeforeColon(line);
      if |head| == |line| || Strip(head) == "" then None else Some(Strip(head))
  }

  function Keys(lines: seq<string>): seq<string> {
    if lines == [] then []
    else Keys(lines[..|lines| - 1])
         + match TopLevelKey(lines[|lines| - 1])
           case Some(key) => [key]
           case None => []
  }

  /** The justification's lines behind the margin; an empty one stays empty. */
  function WhyLines(lines: seq<string>): seq<string> {
    if lines == [] then [] else [if lines[0] == "" then "" else MARGIN + lines[0]] + WhyLines(lines[1..])
  }

  function RowLines(path: string, signature: string, why: string): seq<string> {
    [PATH_FIELD + path, SIGNATURE_FIELD + signature, WHY_FIELD] + WhyLines(SplitLines(why))
  }

  function RenderRow(path: string, signature: string, why: string): string {
    Join(RowLines(path, signature, why)) + "\n"
  }

  function Terminate(text: string): (t: string)
    ensures Terminated(t) && text <= t
  {
    if Terminated(text) then text else text + "\n"
  }

  function StampText(text: string, path: string, signature: string, why: string): string {
    var ended := Terminate(text);
    (if ALLOWLIST_KEY in Keys(SplitLines(ended)) then ended else ended + "\n" + (ALLOWLIST_KEY + ":") + "\n")
    + RenderRow(path, signature, why)
  }

  // ----- reading a manifest

  /** A key as YAML names it: quotes around it are not part of it. */
  function Unquoted(key: string): string {
    if |key| >= 2 && key[0] == key[|key| - 1] && key[0] in "\"'" then key[1..|key| - 1] else key
  }

  function LeadingSpaces(line: string): (n: nat)
    ensures n <= |line| && forall i | 0 <= i < n :: line[i] == ' '
    ensures n < |line| ==> line[n] != ' '
  {
    if line == "" || line[0] != ' ' then 0 else 1 + LeadingSpaces(line[1..])
  }

  /** The indentation of a block-sequence item that starts on this line. */
  function ItemIndent(line: string): Option<nat> {
    var n := LeadingSpaces(line);
    if n < |line| && line[n] == '-' && (n + 1 == |line| || line[n + 1] == ' ') then Some(n) else None
  }

  predicate NothingOn(line: string) {
    Blank(line) || (LeadingSpaces(line) < |line| && line[LeadingSpaces(line)] == '#')
  }

  /**
   The reader after some lines: the section it is in, the rows of the allowlist (each a run of
   lines) and their indentation, whether the section holds some other value, and whether the
   document has stopped making sense.
   */
  datatype Reader = Reader(key: Option<string>, indent: Option<nat>, taken: bool, rows: seq<seq<string>>, broken: bool)

  const START := Reader(None, None, false, [], false)

  /** A line that belongs to the current row. */
  function Continue(st: Reader, line: string): Reader {
    if st.rows == [] then (if NothingOn(line) then st else st.(taken := true))
    else st.(rows := st.rows[|st.rows| - 1 := st.rows[|st.rows| - 1] + [line]])
  }

  /** An item at indentation `n`: the first one fixes where rows start; an item at the row indent of a stamp cannot lie inside a row. */
  function Item(st: Reader, n: nat, line: string): Reader {
    if st.taken then st.(broken := true)
    else if st.indent == None || st.indent == Some(n) then st.(indent := Some(n), rows := st.rows + [[line]])
    else if n > st.indent.value && n != 2 then Continue(st, line)
    else st.(broken := true)
  }

  /** A repeated key starts its value over: the last one wins. */
  function ReadLine(st: Reader, line: string): Reader {
    match TopLevelKey(line)
    case Some(key) =>
      if Unquoted(key) == ALLOWLIST_KEY
      then Reader(Some(ALLOWLIST_KEY), None, !NothingOn(line[|BeforeColon(line)| + 1..]), [], st.broken)
      else st.(key := Some(Unquoted(key)))
    case None =>
      if st.key != Some(ALLOWLIST_KEY) then st
      else
        match ItemIndent(line)
        case Some(n) => Item(st, n, line)
        case None => Continue(st, line)
  }

  function ReadLines(st: Reader, lines: seq<string>): Reader {
    if lines == [] then st else ReadLine(ReadLines(st, lines[..|lines| - 1]), lines[|lines| - 1])
  }

  function Read(text: string): Reader {
    ReadLines(START, SplitLines(text))
  }

  // ----- reading a row

  /** The lines without the first `n` columns; None when one of them starts further left. */
  function Dedent(lines: seq<string>, n: nat): Option<seq<string>> {
    if lines == [] then Some([])
    else
      var spaces := LeadingSpaces(lines[0]);
      match Dedent(lines[1..], n)
      case None => None
      case Some(rest) =>
        if spaces >= n then Some([lines[0][n..]] + rest)
        else if spaces == |lines[0]| then Some([""] + rest)
        else None
  }

  function Chomp(text: string): string {
    if text != "" && text[|text| - 1] == '\n' then Chomp(text[..|text| - 1]) else text
  }

  /** The indentation of a block scalar: that of its first line with something on it. */
  function ScalarIndent(lines: seq<string>): nat {
    if lines == [] then 0
    else if LeadingSpaces(lines[0]) < |lines[0]| then LeadingSpaces(lines[0])
    else ScalarIndent(lines[1..])
  }

  /** The characters a YAML text may hold (section 5.1 of YAML 1.2.2). */
  predicate AdmittedChar(c: char) {
    || c as int in {9, 10, 13, 0x85} || 0x20 <= c as int <= 0x7e
    || 0xa0 <= c as int <= 0xfffd || 0x10000 <= c as int
  }

  predicate Admitted(text: string) {
    forall i | 0 <= i < |text| :: AdmittedChar(text[i])
  }

  /** A literal block scalar with strip chomping (sections 8.1.2 and 8.1.1.2 of YAML 1.2.2). */
  function Literal(lines: seq<string>): Option<string> {
    match Dedent(lines, ScalarIndent(lines))
    case Some(content) => if Admitted(Join(content)) then Some(Chomp(Join(content))) else None
    case None => None
  }

  /** A row as the loader receives it. */
  function ReadRow(w: World, lines: seq<string>): Allowlist.Yaml {
    if |lines| >= 3 && PATH_FIELD <= lines[0] && SIGNATURE_FIELD <= lines[1] && lines[2] == WHY_FIELD && Literal(lines[3..]).Some?
    then Allowlist.Mapping(map["path" := w.plain(lines[0][|PATH_FIELD|..]),
                               "layout_signature" := w.plain(lines[1][|SIGNATURE_FIELD|..]),
                               "justification" := Allowlist.Str(Literal(lines[3..]).value)])
    else w.other(lines)
  }

  function ReadRows(w: World, rows: seq<seq<string>>): seq<Allowlist.Yaml> {
    if rows == [] then [] else ReadRows(w, rows[..|rows| - 1]) + [ReadRow(w, rows[|rows| - 1])]
  }

  /** Nothing stands on a line of white space, or one whose first character behind its spaces is a hash. */
  lemma NothingOnExactly(line: string)
    ensures NothingOn(line)
       <==> || (forall i | 0 <= i < |line| :: IsSpace(line[i]))
            || exists n | 0 <= n < |line| :: line[n] as int == 35 && forall i | 0 <= i < n :: line[i] as int == 32
  {
    hide IsSpace;
    assert '#' as int == 35 && ' ' as int == 32;
    if n :| 0 <= n < |line| && line[n] as int == 35 && forall i | 0 <= i < n :: line[i] as int == 32 {
      assert LeadingSpaces(line) == n;
    }
  }

  /** A scalar is indented as its first line with something on it, however many empty ones stand before that. */
  lemma {:induction false} ScalarIndentExactly(empty: seq<string>, line: string, rest: seq<string>)
    requires forall l | l in empty :: forall i | 0 <= i < |l| :: l[i] == ' '
    requires LeadingSpaces(line) < |line|
    ensures ScalarIndent(empty + [line] + rest) == LeadingSpaces(line)
    decreases |empty|
  {
    var lines := empty + [line] + rest;
    if empty != [] {
      assert lines[1..] == empty[1..] + [line] + rest && empty[0] in empty;
      AllSpaces(empty[0]);
      ScalarIndentExactly(empty[1..], line, rest);
    }
  }

  lemma AllSpaces(l: string)
    requires forall i | 0 <= i < |l| :: l[i] == ' '
    ensures LeadingSpaces(l) == |l|
  {
  }

  /** A row in any other style is read as the world has it. */
  lemma OtherRows(w: World, lines: seq<string>)
    requires |lines| < 3 || lines[2] != "    justification: |-" || !("  - path: " <= lines[0]) || !("    layout_signature: " <= lines[1])
    ensures ReadRow(w, lines) == w.other(lines)
  {
    assert PATH_FIELD == "  - path: " && SIGNATURE_FIELD == "    layout_signature: " && WHY_FIELD == "    justification: |-";
    hide PATH_FIELD, SIGNATURE_FIELD, WHY_FIELD, Literal;
  }

  // ----- the command

  predicate IsOurs(row: Allowlist.Yaml, path: string, signature: string) {
    && row.Mapping?
    && Allowlist.Field(row.fields, "path") == Allowlist.Str(path)
    && Allowlist.Field(row.fields, "layout_signature") == Allowlist.Str(signature)
  }

  /** The text the command writes, or why it writes nothing. */
  function Verdict(w: World, arg: PathArg, why: Option<string>, text: Option<string>): Result<string, Refusal> {
    if why.None? || Blank(why.value) then Err(NeedsWhy)
    else if arg.absolute || ".." in arg.parts then Err(OutsideRepo)
    else if w.resolve(Posix(arg)) == w.resolve(MANIFEST) then Err(SelfTarget)
    else if w.digest(Posix(arg)).None? then Err(TargetMissing)
    else if text.None? then Err(ManifestMissing)
    else
      var keys := Keys(SplitLines(text.value));
      if ALLOWLIST_KEY in keys && keys[|keys| - 1] != ALLOWLIST_KEY then Err(AllowlistNotLast(keys[|keys| - 1]))
      else
        var signature := w.digest(Posix(arg)).value;
        var candidate := StampText(text.value, Posix(arg), signature, Strip(why.value));
        var st := Read(candidate);
        if !Admitted(candidate) || st.broken then Err(Unparseable)
        else if st.rows == [] || !IsOurs(ReadRow(w, st.rows[|st.rows| - 1]), Posix(arg), signature) then Err(RowNotLast)
        else Ok(candidate)
  }

  class Repo {
    const world: World
    var manifest: Option<string>

    constructor (world: World, manifest: Option<string>)
      ensures this.world == world && this.manifest == manifest
    {
      this.world, this.manifest := world, manifest;
    }

    /** Either the row is appended or nothing is written. */
    method StampAllowlistRow(arg: PathArg, why: Option<string>) returns (refusal: Option<Refusal>)
      modifies this
      ensures match Verdict(world, arg, why, old(manifest))
              case Ok(text) => refusal == None && manifest == Some(text)
              case Err(e) => refusal == Some(e) && manifest == old(manifest)
    {
      hide Keys, StampText, Read, ReadRow, IsOurs, Posix, MANIFEST, ALLOWLIST_KEY, Strip;
      if why.None? || Blank(why.value) {
        return Some(NeedsWhy);
      }
      if arg.absolute || ".." in arg.parts {
        return Some(OutsideRepo);
      }
      if world.resolve(Posix(arg)) == world.resolve(MANIFEST) {
        return Some(SelfTarget);
      }
      var signature := world.digest(Posix(arg));
      if signature.None? {
        return Some(TargetMissing);
      }
      if manifest.None? {
        return Some(ManifestMissing);
      }
      var keys := Keys(SplitLines(manifest.value));
      if ALLOWLIST_KEY in keys && keys[|keys| - 1] != ALLOWLIST_KEY {
        return Some(AllowlistNotLast(keys[|keys| - 1]));
      }
      var candidate := StampText(manifest.value, Posix(arg), signature.value, Strip(why.value));
      var parsed := Read(candidate);
      if !Admitted(candidate) || parsed.broken {
        return Some(Unparseable);
      }
      if parsed.rows == [] || !IsOurs(ReadRow(world, parsed.rows[|parsed.rows| - 1]), Posix(arg), signature.value) {
        return Some(RowNotLast);
      }
      manifest := Some(candidate);
      return None;
    }
  }

  // ----- what is checked and what is written, read off the arguments

  /** A path's parts with a slash between them. */
  lemma {:induction false} SlashedJoins(a: seq<string>, b: seq<string>)
    ensures a != [] && b != [] ==> Slashed(a + b) == Slashed(a) + "/" + Slashed(b)
    ensures |a| == 1 ==> Slashed(a) == a[0]
    decreases |a|
  {
    if a != [] && b != [] {
      assert (a + b)[1..] == a[1..] + b;
      if |a| == 1 {
        assert (a + b)[1..] == b;
      } else {
        SlashedJoins(a[1..], b);
        assert a[0] + "/" + (Slashed(a[1..]) + "/" + Slashed(b)) == (a[0] + "/" + Slashed(a[1..])) + "/" + Slashed(b);
      }
    }
  }

  /** A line opens a key when it starts with neither white space, a hash nor a dash, and something is written before its first colon. */
  lemma TopLevelKeyExactly(line: string, key: string)
    ensures TopLevelKey(line) == Some(key)
       <==> exists head, rest ::
              && line == head + ":" + rest && ':' !in head && line[0] as int !in {32, 9, 35, 45}
              && key == Strip(head) && key != ""
  {
    hide Strip;
    assert ' ' as int == 32 && '\t' as int == 9 && '#' as int == 35 && '-' as int == 45;
    if TopLevelKey(line) == Some(key) {
      var head := BeforeColon(line);
      ColonAfter(line);
      var rest := line[|head| + 1..];
      assert line == head + ":" + rest;
    }
    if head, rest :| line == head + ":" + rest && ':' !in head && line[0] as int !in {32, 9, 35, 45} && key == Strip(head) && key != "" {
      BeforeColonIs(head, rest);
    }
  }

  lemma {:induction false} ColonAfter(line: string)
    requires |BeforeColon(line)| < |line|
    ensures line[|BeforeColon(line)|] == ':'
  {
    if line != "" && line[0] != ':' { ColonAfter(line[1..]); }
  }

  lemma {:induction false} KeysInOrder(a: seq<string>, b: seq<string>)
    ensures Keys(a + b) == Keys(a) + Keys(b)
    decreases |b|
  {
    hide TopLevelKey;
    if b == [] {
      assert a + b == a;
    } else {
      var n := |b| - 1;
      assert (a + b)[..|a| + n] == a + b[..n];
      KeysInOrder(a, b[..n]);
    }
  }

  /** The characters YAML keeps out: the controls but tab, line feed, carriage return and next line, and the two non-characters. */
  lemma AdmittedExactly(c: char)
    ensures AdmittedChar(c) <==> !(c as int < 9 || c as int in {11, 12} || 14 <= c as int < 32 || 127 <= c as int < 133
                                   || 134 <= c as int < 160 || c as int in {65534, 65535})
  {
  }

  /** Which refusal a stamp gets, in the order of the checks. */
  lemma RefusalsExactly(w: World, arg: PathArg, why: Option<string>, text: Option<string>, key: string)
    ensures var r, path := Verdict(w, arg, why, text), if arg.parts == [] then "." else Slashed(arg.parts);
            var said := why.Some? && exists i | 0 <= i < |why.value| :: !IsSpace(why.value[i]);
            var inside := said && !arg.absolute && ".." !in arg.parts;
            var other := inside && w.resolve(path) != w.resolve("_layout_relevant_files.yaml");
            var there := other && w.digest(path) != None;
            && (r == Err(NeedsWhy) <==> !said)
            && (r == Err(OutsideRepo) <==> said && !inside)
            && (r == Err(SelfTarget) <==> inside && !other)
            && (r == Err(TargetMissing) <==> other && !there)
            && (r == Err(ManifestMissing) <==> there && text == None)
            && (r == Err(AllowlistNotLast(key)) <==>
                  there && text != None
                  && var keys := Keys(SplitLines(text.value));
                     "non_breaking_allowlist" in keys && key == keys[|keys| - 1] && key != "non_breaking_allowlist")
  {
    hide SplitLines, Keys, StampText, Read, ReadRow, IsOurs, Admitted, Strip, IsSpace, Slashed;
    assert MANIFEST == "_layout_relevant_files.yaml" && ALLOWLIST_KEY == "non_breaking_allowlist";
    hide MANIFEST, ALLOWLIST_KEY;
  }

  /** The text of a row: three field lines, and the justification's lines behind six spaces, an empty one left empty. */
  lemma RowTextExactly(path: string, signature: string, why: string)
    ensures RenderRow(path, signature, why)
         == ("  - path: " + path) + "\n" + ("    layout_signature: " + signature) + "\n" + "    justification: |-" + "\n"
            + Unlines(WhyLines(SplitLines(why)))
    ensures |WhyLines(SplitLines(why))| == |SplitLines(why)|
    ensures forall i | 0 <= i < |SplitLines(why)| ::
              WhyLines(SplitLines(why))[i] == if SplitLines(why)[i] == "" then "" else "      " + SplitLines(why)[i]
  {
    WhyLinesAre(SplitLines(why));
    UnlinesJoin(RowLines(path, signature, why));
    FieldTexts();
    hide PATH_FIELD, SIGNATURE_FIELD, WHY_FIELD, WhyLines, SplitLines, Join, Unlines;
    FourLines(PATH_FIELD + path, SIGNATURE_FIELD + signature, WHY_FIELD, WhyLines(SplitLines(why)));
  }

  lemma FieldTexts()
    ensures PATH_FIELD == "  - path: " && SIGNATURE_FIELD == "    layout_signature: " && WHY_FIELD == "    justification: |-"
  {
  }

  lemma FourLines(a: string, b: string, c: string, rest: seq<string>)
    ensures Unlines([a, b, c] + rest) == a + "\n" + b + "\n" + c + "\n" + Unlines(rest)
  {
    var lines := [a, b, c] + rest;
    assert lines[1..] == [b, c] + rest && ([b, c] + rest)[1..] == [c] + rest && ([c] + rest)[1..] == rest;
    var tail := Unlines(rest);
    assert Unlines([c] + rest) == c + "\n" + tail;
    assert Unlines([b, c] + rest) == b + "\n" + (c + "\n" + tail);
    assert Unlines(lines) == a + "\n" + (b + "\n" + (c + "\n" + tail));
  }

  lemma {:induction false} WhyLinesAre(lines: seq<string>)
    ensures |WhyLines(lines)| == |lines|
    ensures forall i | 0 <= i < |lines| :: WhyLines(lines)[i] == if lines[i] == "" then "" else "      " + lines[i]
  {
    if lines != [] { WhyLinesAre(lines[1..]); }
  }

  /** The text that is written: the old one ended by a newline, an empty line and a key line if no key is spelled like that, and the row. */
  lemma WrittenExactly(text: string, path: string, signature: string, why: string)
    ensures var ended := if text != "" && text[|text| - 1] == '\n' then text else text + "\n";
            StampText(text, path, signature, why)
            == ended + (if "non_breaking_allowlist" in Keys(SplitLines(ended)) then "" else "\n" + "non_breaking_allowlist" + ":" + "\n")
               + RenderRow(path, signature, why)
  {
    assert ALLOWLIST_KEY == "non_breaking_allowlist";
    hide ALLOWLIST_KEY, RenderRow, SplitLines, Keys;
    var ended := Terminate(text);
    assert ended + "\n" + (ALLOWLIST_KEY + ":") + "\n" == ended + ("\n" + ALLOWLIST_KEY + ":" + "\n");
    assert ended + "" == ended;
  }

  // ----- the reader, line by line

  lemma {:induction false} ReadAppend(st: Reader, a: seq<string>, b: seq<string>)
    ensures ReadLines(st, a + b) == ReadLines(ReadLines(st, a), b)
  {
    hide ReadLine;
    if b == [] {
      assert a + b == a;
    } else {
      var n := |b| - 1;
      assert (a + b)[..|a| + n] == a + b[..n];
      ReadAppend(st, a, b[..n]);
    }
  }

  lemma {:induction false} BrokenStays(st: Reader, lines: seq<string>)
    requires st.broken
    ensures ReadLines(st, lines).broken
  {
    hide TopLevelKey, ItemIndent, NothingOn, Unquoted, ALLOWLIST_KEY;
    if lines != [] { BrokenStays(st, lines[..|lines| - 1]); }
  }

  lemma PlainKey()
    ensures Unquoted(ALLOWLIST_KEY) == ALLOWLIST_KEY
    ensures Stripped(ALLOWLIST_KEY) && ALLOWLIST_KEY != "" && ALLOWLIST_KEY[0] !in " \t#-'" && ':' !in ALLOWLIST_KEY
  {
  }

  /** The reader is in the section of the last key, and has rows only if some key names the allowlist. */
  lemma {:induction false} SectionIsLastKey(lines: seq<string>)
    ensures ReadLines(START, lines).key == if Keys(lines) == [] then None else Some(Unquoted(Keys(lines)[|Keys(lines)| - 1]))
    ensures ReadLines(START, lines).rows != [] ==> exists k :: k in Keys(lines) && Unquoted(k) == ALLOWLIST_KEY
  {
    hide TopLevelKey, ItemIndent, NothingOn, Unquoted, ALLOWLIST_KEY;
    if lines != [] { SectionIsLastKey(lines[..|lines| - 1]); }
  }

  /** A line inside a two-space row: it opens no key and starts no item at two spaces or less. */
  predicate Inner(line: string) {
    TopLevelKey(line) == None && (ItemIndent(line).Some? ==> ItemIndent(line).value > 2)
  }

  predicate InRow(st: Reader) {
    st.key == Some(ALLOWLIST_KEY) && st.indent == Some(2) && !st.taken && st.rows != []
  }

  lemma {:induction false} InnerLinesJoinTheRow(st: Reader, lines: seq<string>)
    requires InRow(st) && forall l | l in lines :: Inner(l)
    ensures var last := |st.rows| - 1;
            ReadLines(st, lines) == st.(rows := st.rows[last := st.rows[last] + lines])
  {
    hide TopLevelKey, ItemIndent, NothingOn, ALLOWLIST_KEY;
    var last := |st.rows| - 1;
    if lines == [] {
      assert st.rows[last] + lines == st.rows[last];
      assert st.rows[last := st.rows[last]] == st.rows;
    } else {
      var n := |lines| - 1;
      InnerLinesJoinTheRow(st, lines[..n]);
      assert lines[n] in lines;
      assert lines == lines[..n] + [lines[n]];
      assert st.rows[last] + lines == (st.rows[last] + lines[..n]) + [lines[n]];
    }
  }

  // ----- the lines of a stamp

  lemma {:induction false} Leads(line: string, n: nat)
    requires n <= |line| && forall i | 0 <= i < n :: line[i] == ' '
    ensures LeadingSpaces(line) >= n
    ensures n < |line| && line[n] != ' ' ==> LeadingSpaces(line) == n
  {
    if n > 0 { Leads(line[1..], n - 1); }
  }

  lemma ItemLine(path: string)
    ensures TopLevelKey(PATH_FIELD + path) == None && ItemIndent(PATH_FIELD + path) == Some(2)
  {
    hide BeforeColon, LeadingSpaces;
    Leads(PATH_FIELD + path, 2);
  }

  lemma IndentedIsInner(line: string, n: nat)
    requires 2 < n <= |line| && forall i | 0 <= i < n :: line[i] == ' '
    ensures Inner(line)
  {
    hide BeforeColon, LeadingSpaces;
    Leads(line, n);
  }

  lemma FieldLines(signature: string)
    ensures Inner(SIGNATURE_FIELD + signature) && Inner(WHY_FIELD)
  {
    hide Inner;
    IndentedIsInner(SIGNATURE_FIELD + signature, 4);
    IndentedIsInner(WHY_FIELD, 4);
  }

  lemma MarginLine(line: string)
    ensures Inner(MARGIN + line) && Inner("") && LeadingSpaces(MARGIN + line) >= 6
  {
    hide BeforeColon;
    Leads(MARGIN + line, 6);
    IndentedIsInner(MARGIN + line, 6);
  }

  lemma {:induction false} WhyLinesInner(lines: seq<string>)
    ensures forall l | l in WhyLines(lines) :: Inner(l)
    ensures AllUnbroken(lines) ==> AllUnbroken(WhyLines(lines))
  {
    hide Inner, LeadingSpaces;
    if lines != [] {
      MarginLine(lines[0]);
      WhyLinesInner(lines[1..]);
      if AllUnbroken(lines) { assert lines[0] in lines && forall l | l in lines[1..] :: l in lines; }
    }
  }

  lemma ItemOpensRow(st: Reader, line: string)
    requires st.key == Some(ALLOWLIST_KEY) && TopLevelKey(line) == None && ItemIndent(line) == Some(2)
    ensures var next := ReadLine(st, line);
            next.broken || (next.rows == st.rows + [[line]] && InRow(next))
  {
    hide ALLOWLIST_KEY, TopLevelKey, ItemIndent;
  }

  /** Read from inside the allowlist section, an item and inner lines make one more row, or the document breaks. */
  lemma LinesMakeARow(st: Reader, first: string, rest: seq<string>)
    requires st.key == Some(ALLOWLIST_KEY) && TopLevelKey(first) == None && ItemIndent(first) == Some(2)
    requires forall l | l in rest :: Inner(l)
    requires !ReadLines(st, [first] + rest).broken
    ensures ReadLines(st, [first] + rest).rows == st.rows + [[first] + rest]
  {
    var next := ReadLine(st, first);
    ItemOpensRow(st, first);
    assert ReadLines(st, [first]) == next by { assert [first][..0] == []; }
    hide TopLevelKey, ItemIndent, Inner, ReadLine, ReadLines, ALLOWLIST_KEY;
    ReadAppend(st, [first], rest);
    if next.broken { BrokenStays(next, rest); }
    InnerLinesJoinTheRow(next, rest);
  }

  /** The lines of a stamp are such lines. */
  lemma StampLinesMakeARow(st: Reader, path: string, signature: string, why: string)
    requires st.key == Some(ALLOWLIST_KEY)
    requires !ReadLines(st, RowLines(path, signature, why)).broken
    ensures ReadLines(st, RowLines(path, signature, why)).rows == st.rows + [RowLines(path, signature, why)]
  {
    var first, rest := PATH_FIELD + path, [SIGNATURE_FIELD + signature, WHY_FIELD] + WhyLines(SplitLines(why));
    assert RowLines(path, signature, why) == [first] + rest;
    ItemLine(path);
    FieldLines(signature);
    WhyLinesInner(SplitLines(why));
    hide RowLines, PATH_FIELD, SIGNATURE_FIELD, WHY_FIELD, ALLOWLIST_KEY, TopLevelKey, ItemIndent, Inner, WhyLines, SplitLines, ReadLines;
    LinesMakeARow(st, first, rest);
  }

  // ----- the whole text

  lemma RowText(path: string, signature: string, why: string)
    requires Unbroken(path) && Unbroken(signature)
    ensures SplitLines(RenderRow(path, signature, why)) == RowLines(path, signature, why)
  {
    var lines := RowLines(path, signature, why);
    SplitUnbroken(why);
    WhyLinesInner(SplitLines(why));
    FieldsUnbroken(path, signature);
    hide Unbroken, SplitLines, PATH_FIELD, SIGNATURE_FIELD, WHY_FIELD, WhyLines;
    assert AllUnbroken(lines);
    UnlinesJoin(lines);
    SplitUnlines(lines);
  }

  lemma FieldsUnbroken(path: string, signature: string)
    requires Unbroken(path) && Unbroken(signature)
    ensures Unbroken(PATH_FIELD + path) && Unbroken(SIGNATURE_FIELD + signature) && Unbroken(WHY_FIELD)
  {
  }

  lemma {:induction false} BeforeColonIs(head: string, rest: string)
    requires ':' !in head
    ensures BeforeColon(head + ":" + rest) == head
  {
    var s := head + ":" + rest;
    if head != "" {
      assert s[1..] == head[1..] + ":" + rest;
      BeforeColonIs(head[1..], rest);
    }
  }

  lemma StripNothing(s: string)
    requires Stripped(s)
    ensures Strip(s) == s
  {
  }

  /** The header `--stamp` writes opens an empty allowlist section. */
  lemma HeaderOpensSection(st: Reader)
    ensures ReadLines(st, ["", ALLOWLIST_KEY + ":"]) == Reader(Some(ALLOWLIST_KEY), None, false, [], st.broken)
  {
    var line := ALLOWLIST_KEY + ":";
    PlainKey();
    BeforeColonIs(ALLOWLIST_KEY, "");
    assert ALLOWLIST_KEY + ":" + "" == line;
    StripNothing(ALLOWLIST_KEY);
    assert line[0] == ALLOWLIST_KEY[0];
    hide ALLOWLIST_KEY, Unquoted, Strip;
    assert TopLevelKey(line) == Some(ALLOWLIST_KEY);
    assert line[|ALLOWLIST_KEY| + 1..] == "";
    hide BeforeColon, TopLevelKey;
    ReadAppend(st, [""], [line]);
    assert [""] + [line] == ["", line] && [line][..0] == [] == [""][..0];
    var quiet := ReadLine(st, "");
    assert quiet.broken == st.broken by { EmptyLineHarmless(st); }
  }

  lemma EmptyLineHarmless(st: Reader)
    ensures ReadLine(st, "").broken == st.broken && ReadLine(st, "").key == st.key
  {
  }

  lemma KeysEmptyLine(lines: seq<string>)
    ensures Keys(lines + [""]) == Keys(lines)
  {
    assert (lines + [""])[..|lines|] == lines;
    assert TopLevelKey("") == None;
  }

  lemma KeysTerminated(text: string)
    ensures Keys(SplitLines(Terminate(text))) == Keys(SplitLines(text))
  {
    hide SplitLines, Keys;
    if !Terminated(text) {
      SplitTerminated(text);
      assert SplitLines(text) + [] == SplitLines(text);
      KeysEmptyLine(SplitLines(text));
    }
  }

  /** Where a stamp's row goes: the old text, ended, and a new section when no key spells the allowlist plainly. */
  function Base(text: string): Reader {
    var st := Read(Terminate(text));
    if ALLOWLIST_KEY in Keys(SplitLines(text)) then st else Reader(Some(ALLOWLIST_KEY), None, false, [], st.broken)
  }

  /** Reading goes on after a newline as if the rest were fed to the reader by itself. */
  lemma ReadOn(ended: string, tail: string)
    requires Terminated(ended)
    ensures Read(ended + tail) == ReadLines(Read(ended), SplitLines(tail))
  {
    hide SplitLines, ReadLines, START;
    SplitAfterNewline(ended, tail);
    ReadAppend(START, SplitLines(ended), SplitLines(tail));
  }

  lemma ReadOnHeader(ended: string, row: string)
    requires Terminated(ended)
    ensures Read(ended + "\n" + (ALLOWLIST_KEY + ":") + "\n" + row)
         == ReadLines(Reader(Some(ALLOWLIST_KEY), None, false, [], Read(ended).broken), SplitLines(row))
  {
    var header := ALLOWLIST_KEY + ":";
    HeaderUnbroken();
    HeaderOpensSection(Read(ended));
    hide SplitLines, ReadLines, ALLOWLIST_KEY, Read;
    var below := header + "\n" + row;
    assert ended + "\n" + header + "\n" + row == ended + ("" + "\n" + below);
    ReadOn(ended, "" + "\n" + below);
    SplitOne("", below);
    SplitOne(header, row);
    assert [""] + ([header] + SplitLines(row)) == ["", header] + SplitLines(row);
    ReadAppend(Read(ended), ["", header], SplitLines(row));
  }

  lemma CandidateReads(text: string, path: string, signature: string, why: string)
    requires Unbroken(path) && Unbroken(signature)
    ensures Read(StampText(text, path, signature, why)) == ReadLines(Base(text), RowLines(path, signature, why))
  {
    RowText(path, signature, why);
    KeysTerminated(text);
    hide RenderRow, RowLines, SplitLines, Keys, Terminate, Terminated, ALLOWLIST_KEY, ReadLines, Read;
    if ALLOWLIST_KEY in Keys(SplitLines(text)) {
      ReadOn(Terminate(text), RenderRow(path, signature, why));
    } else {
      ReadOnHeader(Terminate(text), RenderRow(path, signature, why));
    }
  }

  lemma HeaderUnbroken()
    ensures Unbroken(ALLOWLIST_KEY + ":") && Unbroken("")
  {
  }

  /**
   A stamp that goes through leaves the old text as a prefix and adds exactly one row behind the
   rows of the plainly spelled allowlist section: a new section starts out empty.
   */
  lemma StampAppends(w: World, arg: PathArg, why: Option<string>, text: string)
    requires Verdict(w, arg, why, Some(text)).Ok? && Unbroken(Posix(arg)) && Unbroken(w.digest(Posix(arg)).value)
    ensures text <= Verdict(w, arg, why, Some(text)).value
    ensures Read(Verdict(w, arg, why, Some(text)).value).rows
         == Base(text).rows + [RowLines(Posix(arg), w.digest(Posix(arg)).value, Strip(why.value))]
  {
    var path, signature, said := Posix(arg), w.digest(Posix(arg)).value, Strip(why.value);
    WhenStamped(w, arg, why, text);
    OldTextIsPrefix(text, path, signature, said);
    CandidateReads(text, path, signature, said);
    BaseIsInSection(text);
    hide Verdict, StampText, RowLines, Posix, Strip, SplitLines, Keys, Read, ReadLines, ALLOWLIST_KEY, ReadRow, IsOurs, Base;
    StampLinesMakeARow(Base(text), path, signature, said);
  }

  /** What has been checked when a stamp goes through. */
  lemma WhenStamped(w: World, arg: PathArg, why: Option<string>, text: string)
    requires Verdict(w, arg, why, Some(text)).Ok?
    ensures why.Some? && !Blank(why.value) && w.digest(Posix(arg)).Some?
    ensures var keys := Keys(SplitLines(text)); ALLOWLIST_KEY in keys ==> keys[|keys| - 1] == ALLOWLIST_KEY
    ensures var candidate := StampText(text, Posix(arg), w.digest(Posix(arg)).value, Strip(why.value));
            && Verdict(w, arg, why, Some(text)).value == candidate
            && Admitted(candidate) && !Read(candidate).broken && Read(candidate).rows != []
            && IsOurs(ReadRow(w, Read(candidate).rows[|Read(candidate).rows| - 1]), Posix(arg), w.digest(Posix(arg)).value)
  {
    hide StampText, Posix, Strip, SplitLines, Keys, Read, ALLOWLIST_KEY, ReadRow, IsOurs, Blank, MANIFEST, Admitted;
  }

  /** When the allowlist is absent or last, the row's place is inside its section. */
  lemma BaseIsInSection(text: string)
    requires var keys := Keys(SplitLines(text)); ALLOWLIST_KEY in keys ==> keys[|keys| - 1] == ALLOWLIST_KEY
    ensures Base(text).key == Some(ALLOWLIST_KEY)
  {
    KeysTerminated(text);
    SectionIsLastKey(SplitLines(Terminate(text)));
    PlainKey();
    hide SplitLines, Keys, ReadLines, Unquoted, ALLOWLIST_KEY, Terminate;
  }

  lemma OldTextIsPrefix(text: string, path: string, signature: string, why: string)
    ensures text <= StampText(text, path, signature, why)
  {
    hide RenderRow, Keys, SplitLines, ALLOWLIST_KEY, Terminated;
  }

  // ----- the row read back

  lemma {:induction false} DedentBack(lines: seq<string>)
    ensures Dedent(WhyLines(lines), |MARGIN|) == Some(lines)
  {
    hide LeadingSpaces;
    if lines != [] {
      DedentBack(lines[1..]);
      MarginLine(lines[0]);
      assert (MARGIN + lines[0])[|MARGIN|..] == lines[0];
      assert LeadingSpaces("") == 0 by { EmptyHasNoSpaces(); }
      assert lines == [lines[0]] + lines[1..];
    }
  }

  lemma EmptyHasNoSpaces()
    ensures LeadingSpaces("") == 0
  {
  }

  /** The justification a stamp records: the text's lines, joined by newlines. */
  function Recorded(why: string): string {
    Join(SplitLines(why))
  }

  /** Stripped text begins its first line and ends its last one, so neither the margin nor the chomping is ambiguous. */
  lemma WhyEdges(why: string)
    requires why != "" && Stripped(why)
    ensures var lines := SplitLines(why);
            && lines != [] && lines[0] != "" && lines[0][0] != ' ' && !Blank(Recorded(why))
            && Recorded(why) != "" && Recorded(why)[|Recorded(why)| - 1] != '\n'
  {
    if IsBreak(why[0]) { SpaceBreaks(why[0]); }
    if IsBreak(why[|why| - 1]) { SpaceBreaks(why[|why| - 1]); }
    assert why[0] != ' ' && why[|why| - 1] != '\n';
    hide IsSpace, IsBreak, SplitLines;
    FirstLineStarts(why);
    LastLineEnds(why);
    hide Join;
    JoinEnds(SplitLines(why));
    assert Recorded(why)[0] == why[0];
  }

  /**
   The block scalar reads back as what was recorded: neither indentation detection nor chomping
   takes anything off. A text with a character YAML does not admit is not read at all.
   */
  lemma LiteralReadsBack(why: string)
    requires why != "" && Stripped(why)
    ensures Literal(WhyLines(SplitLines(why))) == if Admitted(Recorded(why)) then Some(Recorded(why)) else None
    ensures !Blank(Recorded(why))
  {
    WhyEdges(why);
    var lines := SplitLines(why);
    hide IsSpace, Stripped, Blank, SplitLines, LeadingSpaces, Dedent, Join, Admitted;
    DedentBack(lines);
    Leads(MARGIN + lines[0], |MARGIN|);
    assert WhyLines(lines)[0] == MARGIN + lines[0];
  }

  /** Empty lines after the text are not part of it. */
  lemma EmptyLinesDropped(why: string)
    requires why != "" && Stripped(why)
    ensures Literal(WhyLines(SplitLines(why)) + [""]) == Literal(WhyLines(SplitLines(why)))
  {
    WhyEdges(why);
    var lines := SplitLines(why);
    hide IsSpace, Stripped, Blank, SplitLines, Dedent, Join, Admitted, Chomp;
    DedentBack(lines);
    Leads(MARGIN + lines[0], |MARGIN|);
    var whole := WhyLines(lines) + [""];
    assert WhyLines(lines)[0] == MARGIN + lines[0] && whole[0] == MARGIN + lines[0];
    DedentOneMore(WhyLines(lines), |MARGIN|);
    JoinOneMore(lines);
    AdmittedConcat(Join(lines), "\n");
    EmptyAdmitted();
    ChompOneMore(Join(lines));
  }

  lemma {:induction false} DedentOneMore(lines: seq<string>, n: nat)
    requires Dedent(lines, n).Some? && n > 0
    ensures Dedent(lines + [""], n) == Some(Dedent(lines, n).value + [""])
    decreases |lines|
  {
    hide LeadingSpaces;
    if lines == [] {
      assert lines + [""] == [""];
      DedentEmpty(n);
    } else {
      assert (lines + [""])[1..] == lines[1..] + [""] && (lines + [""])[0] == lines[0];
      DedentOneMore(lines[1..], n);
      var whole, rest := Dedent(lines, n).value, Dedent(lines[1..], n).value;
      assert whole == [whole[0]] + rest && [whole[0]] + (rest + [""]) == whole + [""];
    }
  }

  lemma DedentEmpty(n: nat)
    requires n > 0
    ensures Dedent([""], n) == Some([""]) && Dedent([], n) == Some([])
  {
    EmptyHasNoSpaces();
    assert [""][1..] == [] && [""] + [] == [""];
  }

  lemma {:induction false} JoinOneMore(lines: seq<string>)
    requires lines != []
    ensures Join(lines + [""]) == Join(lines) + "\n"
    decreases |lines|
  {
    assert (lines + [""])[1..] == lines[1..] + [""];
    if |lines| > 1 { JoinOneMore(lines[1..]); }
  }

  lemma ChompOneMore(t: string)
    ensures Chomp(t + "\n") == Chomp(t)
  {
    assert (t + "\n")[..|t|] == t;
  }

  ghost predicate AllAdmitted(lines: seq<string>) {
    forall l | l in lines :: Admitted(l)
  }

  lemma AdmittedConcat(a: string, b: string)
    ensures Admitted(a + b) <==> Admitted(a) && Admitted(b)
  {
    hide AdmittedChar;
    var t := a + b;
    assert forall i | 0 <= i < |a| :: t[i] == a[i];
    assert forall i | 0 <= i < |b| :: t[|a| + i] == b[i];
    if Admitted(t) {
      forall i | 0 <= i < |b| ensures AdmittedChar(b[i]) { assert t[|a| + i] == b[i]; }
    }
  }

  lemma {:induction false} JoinAdmitted(lines: seq<string>)
    ensures Admitted(Join(lines)) <==> AllAdmitted(lines)
  {
    hide Admitted;
    if lines == [] {
      assert Admitted("") by { EmptyAdmitted(); }
    } else {
      assert lines == [lines[0]] + lines[1..];
      if |lines| > 1 {
        JoinAdmitted(lines[1..]);
        EmptyAdmitted();
        AdmittedConcat(lines[0] + "\n", Join(lines[1..]));
        AdmittedConcat(lines[0], "\n");
      }
    }
  }

  lemma EmptyAdmitted()
    ensures Admitted("") && Admitted("\n") && Admitted(MARGIN)
  {
  }

  lemma {:induction false} WhyLinesAdmitted(lines: seq<string>)
    requires AllAdmitted(WhyLines(lines))
    ensures AllAdmitted(lines)
  {
    hide Admitted;
    EmptyAdmitted();
    if lines != [] {
      assert WhyLines(lines)[0] in WhyLines(lines);
      AdmittedConcat(MARGIN, lines[0]);
      assert forall l | l in WhyLines(lines[1..]) :: l in WhyLines(lines);
      WhyLinesAdmitted(lines[1..]);
      assert lines == [lines[0]] + lines[1..];
    }
  }

  /** What is written in an admitted text is admitted. */
  lemma RecordedAdmitted(path: string, signature: string, why: string)
    requires Admitted(RenderRow(path, signature, why))
    ensures Admitted(Recorded(why))
  {
    hide Admitted, SplitLines, Join, WhyLines;
    var lines := RowLines(path, signature, why);
    AdmittedConcat(Join(lines), "\n");
    JoinAdmitted(lines);
    forall l | l in WhyLines(SplitLines(why)) ensures Admitted(l) { assert l in lines; }
    WhyLinesAdmitted(SplitLines(why));
    JoinAdmitted(SplitLines(why));
  }

  lemma CandidateAdmitted(text: string, path: string, signature: string, why: string)
    requires Admitted(StampText(text, path, signature, why))
    ensures Admitted(RenderRow(path, signature, why))
  {
    hide Admitted, RenderRow, Keys, SplitLines, ALLOWLIST_KEY, Terminate;
    var ended := Terminate(text);
    AdmittedConcat(if ALLOWLIST_KEY in Keys(SplitLines(ended)) then ended else ended + "\n" + (ALLOWLIST_KEY + ":") + "\n",
                   RenderRow(path, signature, why));
  }

  /** A stamp whose justification YAML does not admit writes nothing. */
  lemma InadmissibleIsRefused(w: World, arg: PathArg, why: string, text: Option<string>)
    requires !Admitted(Recorded(Strip(why)))
    ensures Verdict(w, arg, Some(why), text).Err?
  {
    hide Verdict, Admitted, Recorded, Strip, StampText, RenderRow, Posix;
    if Verdict(w, arg, Some(why), text).Ok? {
      var old_ := VerdictHasText(w, arg, why, text);
      WhenStamped(w, arg, Some(why), old_);
      CandidateAdmitted(old_, Posix(arg), w.digest(Posix(arg)).value, Strip(why));
      RecordedAdmitted(Posix(arg), w.digest(Posix(arg)).value, Strip(why));
      assert false;
    }
  }

  lemma VerdictHasText(w: World, arg: PathArg, why: string, text: Option<string>) returns (old_: string)
    requires Verdict(w, arg, Some(why), text).Ok?
    ensures text == Some(old_)
  {
    old_ := text.value;
  }

  /** A stamp's justification is recorded as it was given exactly when its only line breaks are newlines. */
  lemma JustificationExactly(why: string)
    requires why != "" && Stripped(why)
    ensures Recorded(why) == why <==> OnlyNewlines(why)
  {
    if IsBreak(why[|why| - 1]) { SpaceBreaks(why[|why| - 1]); }
    JoinSplitExactly(why);
  }

  /** The row reads back with its three fields, if YAML admits the justification; otherwise it is no such row. */
  lemma RowReadsBack(w: World, path: string, signature: string, why: string)
    requires why != "" && Stripped(why)
    ensures ReadRow(w, RowLines(path, signature, why))
         == if Admitted(Recorded(why)) then
              Allowlist.Mapping(map["path" := w.plain(path), "layout_signature" := w.plain(signature),
                                    "justification" := Allowlist.Str(Recorded(why))])
            else w.other(RowLines(path, signature, why))
  {
    LiteralReadsBack(why);
    hide Literal, Recorded, WhyLines, SplitLines, Admitted, PATH_FIELD, SIGNATURE_FIELD, WHY_FIELD, Stripped;
    var lines := RowLines(path, signature, why);
    FieldValue(PATH_FIELD, path);
    FieldValue(SIGNATURE_FIELD, signature);
    assert lines[3..] == WhyLines(SplitLines(why));
  }

  lemma FieldValue(field: string, value: string)
    ensures field <= field + value && (field + value)[|field|..] == value
  {
  }

  lemma OursIsAStamp(w: World, path: string, signature: string, why: string)
    requires why != "" && Stripped(why) && Admitted(Recorded(why))
    requires IsOurs(ReadRow(w, RowLines(path, signature, why)), path, signature)
    ensures ReadRow(w, RowLines(path, signature, why)) == Allowlist.StampRow(path, signature, Recorded(why))
  {
    RowReadsBack(w, path, signature, why);
    hide ReadRow, RowLines, Recorded;
  }

  /** Some top-level key spells the allowlist without quotes. */
  predicate SpelledPlainly(text: string) {
    ALLOWLIST_KEY in Keys(SplitLines(text))
  }

  /** The rows the loader sees in a manifest, and its verdict on them. */
  function LoadedRows(w: World, text: string): seq<Allowlist.Yaml> {
    ReadRows(w, Read(Terminate(text)).rows)
  }

  function LoadText(w: World, text: string): Result<Allowlist.Table, Allowlist.Refusal> {
    Allowlist.Load(LoadedRows(w, text))
  }

  /**
   What a stamp that goes through does to the manifest's rows: it keeps them, with its own behind,
   exactly when some key spells the allowlist plainly or there are no rows. Otherwise its row is the
   only one left: the key search does not see a quoted key, a second key is written, and YAML lets
   that one replace the first.
   */
  lemma RowsKeptExactly(w: World, arg: PathArg, why: Option<string>, text: string)
    requires Verdict(w, arg, why, Some(text)).Ok? && Unbroken(Posix(arg)) && Unbroken(w.digest(Posix(arg)).value)
    ensures var row := RowLines(Posix(arg), w.digest(Posix(arg)).value, Strip(why.value));
            var before, after := Read(Terminate(text)).rows, Read(Verdict(w, arg, why, Some(text)).value).rows;
            && (after == before + [row] <==> SpelledPlainly(text) || before == [])
            && (!SpelledPlainly(text) ==> after == [row])
            && (!SpelledPlainly(text) && before != [] ==>
                  exists k :: k in Keys(SplitLines(text)) && k != ALLOWLIST_KEY && Unquoted(k) == ALLOWLIST_KEY)
  {
    StampAppends(w, arg, why, text);
    KeysTerminated(text);
    SectionIsLastKey(SplitLines(Terminate(text)));
    hide SplitLines, Keys, ReadLines, Unquoted, ALLOWLIST_KEY, Terminate, Verdict, RowLines, Strip, Posix;
  }

  /** The row a stamp writes, as the loader sees it. */
  lemma StampRowRead(w: World, arg: PathArg, why: Option<string>, text: string)
    requires Verdict(w, arg, why, Some(text)).Ok? && Unbroken(Posix(arg)) && Unbroken(w.digest(Posix(arg)).value)
    ensures var path, signature, said := Posix(arg), w.digest(Posix(arg)).value, Strip(why.value);
            && ReadRow(w, RowLines(path, signature, said)) == Allowlist.StampRow(path, signature, Recorded(said))
            && !Blank(Recorded(said))
  {
    var path, signature, said := Posix(arg), w.digest(Posix(arg)).value, Strip(why.value);
    WhenStamped(w, arg, why, text);
    StampAppends(w, arg, why, text);
    StripStrips(why.value);
    LiteralReadsBack(said);
    CandidateAdmitted(text, path, signature, said);
    RecordedAdmitted(path, signature, said);
    hide Verdict, Posix, Strip, Read, ReadRow, IsOurs, Base, RowLines, Recorded, StampText, SplitLines, Keys, Stripped, Literal, Admitted;
    OursIsAStamp(w, path, signature, said);
  }

  /**
   End to end: when a stamp goes through on a manifest that loads, the target resolves to the
   recorded hash, and every other path as before if some key spells the allowlist plainly; if none
   does, no other path is left in the table.
   */
  lemma StampTakesEffect(w: World, arg: PathArg, why: Option<string>, text: string)
    requires Verdict(w, arg, why, Some(text)).Ok? && Unbroken(Posix(arg)) && Unbroken(w.digest(Posix(arg)).value)
    requires LoadText(w, text).Ok?
    ensures var path, entry := Allowlist.Str(Posix(arg)),
                               Allowlist.Entry(Some(Recorded(Strip(why.value))), w.digest(Posix(arg)));
            var before, after := LoadText(w, text).value, LoadText(w, Verdict(w, arg, why, Some(text)).value);
            && after == Ok((if SpelledPlainly(text) then before else map[])[path := entry])
            && (after == Ok(before[path := entry]) <==> SpelledPlainly(text) || before.Keys <= {path})
  {
    var path, signature, said := Posix(arg), w.digest(Posix(arg)).value, Strip(why.value);
    var new_ := Verdict(w, arg, why, Some(text)).value;
    var row := RowLines(path, signature, said);
    WhenStamped(w, arg, why, text);
    StampAppends(w, arg, why, text);
    StampRowRead(w, arg, why, text);
    CandidateEnds(text, path, signature, said);
    hide Verdict, Posix, Strip, Read, ReadRow, IsOurs, RowLines, Recorded, StampText, SplitLines, Keys, ALLOWLIST_KEY, Admitted;
    ReadOneMore(w, Base(text).rows, row);
    var before := ReadRows(w, Base(text).rows);
    assert LoadedRows(w, new_) == before + [Allowlist.StampRow(path, signature, Recorded(said))];
    if SpelledPlainly(text) {
      Allowlist.StampChangesOnePath(before, path, signature, Recorded(said));
    } else {
      assert before == [];
      EmptyLogLoads();
      Allowlist.StampChangesOnePath([], path, signature, Recorded(said));
    }
    var entry := Allowlist.Entry(Some(Recorded(said)), Some(signature));
    SameUpdate(LoadText(w, text).value, Allowlist.Str(path), entry);
  }

  lemma EmptyLogLoads()
    ensures Allowlist.Load([]) == Ok(map[])
  {
  }

  /** One entry put into a table makes the table of that entry alone exactly when the table had no other. */
  lemma SameUpdate(table: Allowlist.Table, path: Allowlist.Yaml, entry: Allowlist.Entry)
    ensures table[path := entry] == map[path := entry] <==> table.Keys <= {path}
    ensures map[][path := entry] == map[path := entry]
  {
    if table[path := entry] == map[path := entry] {
      forall k | k in table.Keys ensures k == path {
        assert k in table[path := entry].Keys;
      }
    }
  }

  /** What a stamp writes ends with a newline. */
  lemma CandidateEnds(text: string, path: string, signature: string, why: string)
    ensures Terminate(StampText(text, path, signature, why)) == StampText(text, path, signature, why)
  {
    hide Keys, SplitLines, ALLOWLIST_KEY, RowLines, Join;
    var candidate := StampText(text, path, signature, why);
    assert candidate[|candidate| - 1] == '\n';
  }

  lemma ReadOneMore(w: World, rows: seq<seq<string>>, row: seq<string>)
    ensures ReadRows(w, rows + [row]) == ReadRows(w, rows) + [ReadRow(w, row)]
  {
    hide ReadRow;
    assert (rows + [row])[..|rows|] == rows;
  }

  // ----- a manifest whose old row is lost

  const QUOTED := "'" + ALLOWLIST_KEY + "'"

  /** A world in which every plain scalar is text and only the file `b` exists. */
  const HERE := World(p => p, p => if p == "b" then Some("d") else None, t => Allowlist.Str(t), _ => Allowlist.Null)

  /** One row for the path `a`, under the quoted key. */
  function QuotedManifest(): string {
    Unlines([QUOTED + ":"] + RowLines("a", "s", "w"))
  }

  /** Stamping `b` goes through on a manifest that loads and resolves `a`; afterwards `a` has no entry. */
  lemma QuotedKeyLosesRows()
    ensures var stamped := Verdict(HERE, PathArg(false, ["b"]), Some("x"), Some(QuotedManifest()));
            && LoadText(HERE, QuotedManifest()) == Ok(map[Allowlist.Str("a") := Allowlist.Entry(Some("w"), Some("s"))])
            && stamped.Ok?
            && LoadText(HERE, stamped.value) == Ok(map[Allowlist.Str("b") := Allowlist.Entry(Some("x"), Some("d"))])
  {
    var text, arg := QuotedManifest(), PathArg(false, ["b"]);
    QuotedReads();
    OneLetters();
    assert Posix(arg) == "b";
    QuotedLoads();
    QuotedGoesThrough();
    hide QuotedManifest, HERE, Verdict, LoadText, Posix, Strip, Recorded, ALLOWLIST_KEY, Keys, SplitLines;
    StampTakesEffect(HERE, arg, Some("x"), text);
  }

  /** The quoted manifest has the one key, in quotes, and the one row. */
  lemma QuotedReads()
    ensures Terminate(QuotedManifest()) == QuotedManifest()
    ensures Read(QuotedManifest()) == Reader(Some(ALLOWLIST_KEY), Some(2), false, [RowLines("a", "s", "w")], false)
    ensures Keys(SplitLines(QuotedManifest())) == [QUOTED] && QUOTED != ALLOWLIST_KEY && !SpelledPlainly(QuotedManifest())
  {
    var row := RowLines("a", "s", "w");
    QuotedKeyLine();
    OneLetters();
    RowLinesUnbroken("a", "s", "w");
    hide ALLOWLIST_KEY, QUOTED, RowLines, TopLevelKey, Unquoted, BeforeColon, NothingOn, Unbroken, SplitLines, Unlines;
    assert AllUnbroken([QUOTED + ":"] + row);
    SplitUnlines([QUOTED + ":"] + row);
    UnlinesEnds([QUOTED + ":"] + row);
    var opened_ := Reader(Some(ALLOWLIST_KEY), None, false, [], false);
    ReadAppend(START, [QUOTED + ":"], row);
    ReadOne(START, QUOTED + ":");
    FreshSectionTakesRow(opened_, "a", "s", "w");
    KeysOfRow([QUOTED + ":"], "a", "s", "w");
    KeysOne(QUOTED + ":");
  }

  lemma QuotedLoads()
    requires Terminate(QuotedManifest()) == QuotedManifest()
    requires Read(QuotedManifest()).rows == [RowLines("a", "s", "w")]
    ensures LoadText(HERE, QuotedManifest()) == Ok(map[Allowlist.Str("a") := Allowlist.Entry(Some("w"), Some("s"))])
  {
    OneLetters();
    RowReadsBack(HERE, "a", "s", "w");
    var row := RowLines("a", "s", "w");
    assert HERE.plain("a") == Allowlist.Str("a") && HERE.plain("s") == Allowlist.Str("s");
    hide HERE, QuotedManifest, RowLines, Recorded, ReadRow, Read;
    assert [] + [row] == [row];
    ReadOneMore(HERE, [], row);
    assert ReadRow(HERE, row) == Allowlist.StampRow("a", "s", "w");
    EmptyLogLoads();
    assert [] + [Allowlist.StampRow("a", "s", "w")] == [Allowlist.StampRow("a", "s", "w")];
    Allowlist.StampChangesOnePath([], "a", "s", "w");
  }

  lemma QuotedGoesThrough()
    requires Read(QuotedManifest()) == Reader(Some(ALLOWLIST_KEY), Some(2), false, [RowLines("a", "s", "w")], false)
    requires Terminate(QuotedManifest()) == QuotedManifest()
    requires Keys(SplitLines(QuotedManifest())) == [QUOTED] && QUOTED != ALLOWLIST_KEY
    ensures Verdict(HERE, PathArg(false, ["b"]), Some("x"), Some(QuotedManifest())).Ok?
  {
    hide QuotedManifest, HERE, RowLines, ReadRow, Read, ALLOWLIST_KEY, QUOTED, Keys, SplitLines, StampText, Admitted, MANIFEST;
    hide Strip, Posix, Verdict, Blank, Terminate, IsOurs, Recorded;
    QuotedCandidate();
    QuotedAdmitted();
    HereTakesB();
    OneLetters();
    GoesThrough(HERE, PathArg(false, ["b"]), "x", QuotedManifest(), "d");
  }

  lemma QuotedCandidate()
    requires Read(QuotedManifest()) == Reader(Some(ALLOWLIST_KEY), Some(2), false, [RowLines("a", "s", "w")], false)
    requires Terminate(QuotedManifest()) == QuotedManifest()
    requires Keys(SplitLines(QuotedManifest())) == [QUOTED] && QUOTED != ALLOWLIST_KEY
    ensures Read(StampText(QuotedManifest(), "b", "d", "x"))
         == Reader(Some(ALLOWLIST_KEY), Some(2), false, [RowLines("b", "d", "x")], false)
  {
    hide QuotedManifest, RowLines, Read, ReadLines, ALLOWLIST_KEY, QUOTED, Keys, SplitLines, StampText, Recorded, Terminate;
    OneLetters();
    CandidateReads(QuotedManifest(), "b", "d", "x");
    FreshSectionTakesRow(Reader(Some(ALLOWLIST_KEY), None, false, [], false), "b", "d", "x");
  }

  /** In that world the command may stamp `b`, and its row reads back as its own. */
  lemma HereTakesB()
    ensures Posix(PathArg(false, ["b"])) == "b" && ".." !in ["b"]
    ensures HERE.resolve("b") != HERE.resolve(MANIFEST) && HERE.digest("b") == Some("d")
    ensures IsOurs(ReadRow(HERE, RowLines("b", "d", "x")), "b", "d")
  {
    NotTheManifest();
    HereReadsB();
    hide MANIFEST, RowLines, ReadRow, IsOurs;
  }

  lemma HereReadsB()
    ensures IsOurs(ReadRow(HERE, RowLines("b", "d", "x")), "b", "d")
  {
    assert HERE.plain("b") == Allowlist.Str("b") && HERE.plain("d") == Allowlist.Str("d");
    hide HERE, RowLines, ReadRow, Recorded, Admitted, Stripped;
    OneLetters();
    RowReadsBack(HERE, "b", "d", "x");
  }

  /** Nothing but the listed checks stands between a stamp and its writing. */
  lemma GoesThrough(w: World, arg: PathArg, why: string, text: string, signature: string)
    requires !Blank(why) && !arg.absolute && ".." !in arg.parts
    requires w.resolve(Posix(arg)) != w.resolve(MANIFEST) && w.digest(Posix(arg)) == Some(signature)
    requires var keys := Keys(SplitLines(text)); ALLOWLIST_KEY in keys ==> keys[|keys| - 1] == ALLOWLIST_KEY
    requires var candidate := StampText(text, Posix(arg), signature, Strip(why));
             && Admitted(candidate) && !Read(candidate).broken && Read(candidate).rows != []
             && IsOurs(ReadRow(w, Read(candidate).rows[|Read(candidate).rows| - 1]), Posix(arg), signature)
    ensures Verdict(w, arg, Some(why), Some(text)).Ok?
  {
    hide StampText, Posix, Strip, SplitLines, Keys, Read, ALLOWLIST_KEY, ReadRow, IsOurs, Blank, MANIFEST, Admitted;
  }

  lemma NotTheManifest()
    ensures MANIFEST != "b" && ".." != "b"
  {
    assert |MANIFEST| != |"b"|;
  }

  /** One-letter texts are admitted, unbroken and already stripped, and are recorded as they are. */
  lemma OneLetters()
    ensures Unbroken("a") && Unbroken("s") && Unbroken("b") && Unbroken("d")
    ensures Stripped("w") && Stripped("x") && !Blank("w") && !Blank("x") && Strip("x") == "x"
    ensures Recorded("w") == "w" && Recorded("x") == "x" && Admitted("w") && Admitted("x")
  {
    StripNothing("x");
    OneLine("w");
    OneLine("x");
  }

  lemma OneLine(t: string)
    requires t != "" && Unbroken(t)
    ensures Recorded(t) == t
  {
    WholeLine(t);
    hide SplitLines;
  }

  lemma RowLinesUnbroken(path: string, signature: string, why: string)
    requires Unbroken(path) && Unbroken(signature)
    ensures AllUnbroken(RowLines(path, signature, why))
  {
    SplitUnbroken(why);
    WhyLinesInner(SplitLines(why));
    FieldsUnbroken(path, signature);
    hide Unbroken, SplitLines, PATH_FIELD, SIGNATURE_FIELD, WHY_FIELD, WhyLines;
  }

  lemma UnlinesEnds(lines: seq<string>)
    requires lines != []
    ensures Terminate(Unlines(lines)) == Unlines(lines)
  {
    UnlinesJoin(lines);
    hide Unlines, Join;
    var t := Unlines(lines);
    assert t[|t| - 1] == '\n';
  }

  /** An allowlist section with nothing in it yet takes a stamp's lines without breaking. */
  lemma FreshSectionTakesRow(st: Reader, path: string, signature: string, why: string)
    requires st == Reader(Some(ALLOWLIST_KEY), None, false, [], false)
    ensures ReadLines(st, RowLines(path, signature, why))
         == Reader(Some(ALLOWLIST_KEY), Some(2), false, [RowLines(path, signature, why)], false)
  {
    var first, rest := PATH_FIELD + path, [SIGNATURE_FIELD + signature, WHY_FIELD] + WhyLines(SplitLines(why));
    assert RowLines(path, signature, why) == [first] + rest;
    ItemLine(path);
    FieldLines(signature);
    WhyLinesInner(SplitLines(why));
    hide RowLines, PATH_FIELD, SIGNATURE_FIELD, WHY_FIELD, ALLOWLIST_KEY, TopLevelKey, ItemIndent, Inner, WhyLines, SplitLines;
    var next := Reader(Some(ALLOWLIST_KEY), Some(2), false, [[first]], false);
    assert ReadLine(st, first) == next;
    hide ReadLine;
    ReadAppend(st, [first], rest);
    ReadOne(st, first);
    InnerLinesJoinTheRow(next, rest);
  }

  lemma KeysOne(line: string)
    ensures Keys([line]) == match TopLevelKey(line) case Some(key) => [key] case None => []
  {
    hide TopLevelKey;
    assert [line][..0] == [];
  }

  lemma {:induction false} KeysOfQuiet(front: seq<string>, lines: seq<string>)
    requires forall l | l in lines :: TopLevelKey(l) == None
    ensures Keys(front + lines) == Keys(front)
    decreases |lines|
  {
    hide TopLevelKey;
    if lines == [] {
      assert front + lines == front;
    } else {
      var n := |lines| - 1;
      KeysOfQuiet(front, lines[..n]);
      assert (front + lines)[..|front| + n] == front + lines[..n];
      assert lines[n] in lines;
    }
  }

  /** A stamp's lines open no top-level key. */
  lemma KeysOfRow(front: seq<string>, path: string, signature: string, why: string)
    ensures Keys(front + RowLines(path, signature, why)) == Keys(front)
  {
    ItemLine(path);
    FieldLines(signature);
    WhyLinesInner(SplitLines(why));
    hide PATH_FIELD, SIGNATURE_FIELD, WHY_FIELD, TopLevelKey, ItemIndent, WhyLines, SplitLines, Keys;
    KeysOfQuiet(front, RowLines(path, signature, why));
  }

  lemma QuotedAdmitted()
    ensures Admitted(StampText(QuotedManifest(), "b", "d", "x"))
  {
    RowAdmitted("a", "s", "w");
    RowAdmitted("b", "d", "x");
    HeadersAdmitted();
    hide Admitted, RowLines, Keys, SplitLines, ALLOWLIST_KEY, QUOTED;
    var lines := [QUOTED + ":"] + RowLines("a", "s", "w");
    JoinAdmitted(lines);
    UnlinesJoin(lines);
    UnlinesEnds(lines);
    AdmittedConcat(Join(lines), "\n");
    var ended := Terminate(QuotedManifest());
    AdmittedConcat(ended, "\n");
    AdmittedConcat(ended + "\n", ALLOWLIST_KEY + ":");
    AdmittedConcat(ended + "\n" + (ALLOWLIST_KEY + ":"), "\n");
    JoinAdmitted(RowLines("b", "d", "x"));
    AdmittedConcat(Join(RowLines("b", "d", "x")), "\n");
    AdmittedConcat(if ALLOWLIST_KEY in Keys(SplitLines(ended)) then ended else ended + "\n" + (ALLOWLIST_KEY + ":") + "\n",
                   RenderRow("b", "d", "x"));
  }

  lemma HeadersAdmitted()
    ensures Admitted("\n") && Admitted(ALLOWLIST_KEY + ":") && Admitted(QUOTED + ":")
  {
  }

  lemma RowAdmitted(path: string, signature: string, why: string)
    requires |path| == |signature| == |why| == 1 && Unbroken(why) && Admitted(path) && Admitted(signature) && Admitted(why)
    ensures AllAdmitted(RowLines(path, signature, why))
  {
    FieldsAdmitted();
    WholeLine(why);
    assert WhyLines([why]) == [MARGIN + why] by { assert [why][1..] == []; }
    hide Admitted, PATH_FIELD, SIGNATURE_FIELD, WHY_FIELD, SplitLines, WhyLines;
    AdmittedConcat(PATH_FIELD, path);
    AdmittedConcat(SIGNATURE_FIELD, signature);
    AdmittedConcat(MARGIN, why);
  }

  lemma FieldsAdmitted()
    ensures Admitted(PATH_FIELD) && Admitted(SIGNATURE_FIELD) && Admitted(WHY_FIELD) && Admitted(MARGIN)
  {
  }

  lemma ReadOne(st: Reader, line: string)
    ensures ReadLines(st, [line]) == ReadLine(st, line)
  {
    hide ReadLine;
    assert [line][..0] == [];
  }

  lemma QuotedKeyLine()
    ensures TopLevelKey(QUOTED + ":") == Some(QUOTED) && Unquoted(QUOTED) == ALLOWLIST_KEY && QUOTED != ALLOWLIST_KEY
    ensures NothingOn((QUOTED + ":")[|BeforeColon(QUOTED + ":")| + 1..])
    ensures Unbroken(QUOTED + ":")
  {
    PlainKey();
    HeaderUnbroken();
    QuoteKey(ALLOWLIST_KEY);
  }

  lemma QuoteKey(key: string)
    requires key != "" && ':' !in key && key[0] != '\'' && Unbroken(key + ":")
    ensures var quoted := "'" + key + "'";
            && TopLevelKey(quoted + ":") == Some(quoted) && Unquoted(quoted) == key && quoted != key
            && NothingOn((quoted + ":")[|BeforeColon(quoted + ":")| + 1..]) && Unbroken(quoted + ":")
  {
    var quoted := "'" + key + "'";
    assert quoted[0] == '\'' && quoted[|quoted| - 1] == '\'' && quoted[1..|quoted| - 1] == key;
    BeforeColonIs(quoted, "");
    assert quoted + ":" + "" == quoted + ":";
    StripNothing(quoted);
    assert (quoted + ":")[|quoted| + 1..] == "";
    QuoteUnbroken(key);
    hide BeforeColon, Strip, Unbroken;
  }

  lemma QuoteUnbroken(key: string)
    requires Unbroken(key + ":")
    ensures Unbroken("'" + key + "'" + ":")
  {
    var line := "'" + key + "'" + ":";
    forall i | 0 <= i < |line| ensures !IsBreak(line[i]) {
      if 0 < i <= |key| { assert line[i] == (key + ":")[i - 1]; }
    }
  }
}
