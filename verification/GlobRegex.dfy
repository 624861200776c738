/**
 The layout sentinel's glob language: the compiler to a regular expression, the meaning of
 that expression under `re.fullmatch`, and an independent backtracking reading of a glob.
 */
module GlobRegex {

  // ----- the regular expressions the compiler emits

  datatype CharClass = NotNewline | NotSlash | Exactly(c: char)

  datatype Regex =
    | Empty
    | Class(k: CharClass)
    | Cat(left: Regex, right: Regex)
    | Opt(body: Regex)
    | Star(body: Regex)

  predicate InClass(k: CharClass, c: char) {
    match k
    case NotNewline => c != '\n'
    case NotSlash => c != '/'
    case Exactly(d) => c == d
  }

  /** `re.fullmatch(r, s) is not None`, by the usual denotation of each operator. */
  predicate FullMatch(r: Regex, s: string)
    decreases r, |s|
  {
    match r
    case Empty => s == ""
    case Class(k) => |s| == 1 && InClass(k, s[0])
    case Cat(a, b) => exists k | 0 <= k <= |s| :: FullMatch(a, s[..k]) && FullMatch(b, s[k..])
    case Opt(a) => s == "" || FullMatch(a, s)
    case Star(a) => s == "" || exists k | 0 < k <= |s| :: FullMatch(a, s[..k]) && FullMatch(r, s[k..])
  }

  /** One appended piece of the pattern. */
  datatype Atom =
    | Dirs            // (?:.*/)?
    | Anything        // .*
    | Segment         // [^/]*
    | OneChar         // [^/]
    | Literal(c: char)

  function AtomRegex(a: Atom): Regex {
    match a
    case Dirs => Opt(Cat(Star(Class(NotNewline)), Class(Exactly('/'))))
    case Anything => Star(Class(NotNewline))
    case Segment => Star(Class(NotSlash))
    case OneChar => Class(NotSlash)
    case Literal(c) => Class(Exactly(c))
  }

  function SeqRegex(atoms: seq<Atom>): Regex {
    if atoms == [] then Empty else Cat(AtomRegex(atoms[0]), SeqRegex(atoms[1..]))
  }

  // ----- the compiler

  /** What the glob suffix `g` compiles to. */
  function Compile(g: string): seq<Atom> {
    if g == "" then []
    else if g[0] == '*' then
      if |g| > 1 && g[1] == '*' then
        if |g| > 2 && g[2] == '/' then [Dirs] + Compile(g[3..]) else [Anything] + Compile(g[2..])
      else [Segment] + Compile(g[1..])
    else if g[0] == '?' then [OneChar] + Compile(g[1..])
    else [Literal(g[0])] + Compile(g[1..])
  }

  /** The piece at index `i` of the glob, and how many characters it consumes. */
  function PieceAt(glob: string, i: nat): (piece: (Atom, nat))
    requires i < |glob|
    ensures 1 <= piece.1 <= |glob| - i
  {
    if glob[i] == '*' then
      if i + 1 < |glob| && glob[i + 1] == '*' then
        if i + 2 < |glob| && glob[i + 2] == '/' then (Dirs, 3) else (Anything, 2)
      else (Segment, 1)
    else if glob[i] == '?' then (OneChar, 1)
    else (Literal(glob[i]), 1)
  }

  /** The pieces of the glob from index `i` on. */
  function CompileFrom(glob: string, i: nat): seq<Atom>
    requires i <= |glob|
    decreases |glob| - i
  {
    if i == |glob| then [] else var (a, w) := PieceAt(glob, i); [a] + CompileFrom(glob, i + w)
  }

  lemma {:induction false} CompileFromIsCompile(glob: string, i: nat)
    requires i <= |glob|
    ensures CompileFrom(glob, i) == Compile(glob[i..])
    decreases |glob| - i
  {
    if i < |glob| {
      var g := glob[i..];
      var (a, w) := PieceAt(glob, i);
      assert g[w..] == glob[i + w..];
      CompileFromIsCompile(glob, i + w);
    }
  }

  // ----- the pattern text

  /** The characters `re.escape` puts a backslash in front of. */
  predicate Special(c: char) {
    || c in "()[]{}?*+-|^$\\.&~# \t\n\r"
    || c == 11 as char || c == 12 as char
  }

  /** They are the punctuation and white space of Python's table, by their codes. */
  lemma EscapedCharacters(c: char)
    ensures Special(c) <==> c as int in {9, 10, 11, 12, 13, 32, 35, 36, 38, 40, 41, 42, 43, 45, 46, 63, 91, 92, 93, 94, 123, 124, 125, 126}
  {
  }

  function AtomText(a: Atom): string {
    match a
    case Dirs => "(?:.*/)?"
    case Anything => ".*"
    case Segment => "[^/]*"
    case OneChar => "[^/]"
    case Literal(c) => if Special(c) then ['\\', c] else [c]
  }

  /** The joined pieces: the string handed to the regular-expression engine. */
  function PatternText(atoms: seq<Atom>): string {
    if atoms == [] then "" else AtomText(atoms[0]) + PatternText(atoms[1..])
  }

  /** How an engine reads this fragment: an escape, a group, a class with its longest quantifier, or a character. */
  function ReadPattern(text: string): seq<Atom> {
    if text == "" then []
    else if text[0] == '\\' && |text| > 1 then [Literal(text[1])] + ReadPattern(text[2..])
    else if "(?:.*/)?" <= text then [Dirs] + ReadPattern(text[8..])
    else if ".*" <= text then [Anything] + ReadPattern(text[2..])
    else if "[^/]*" <= text then [Segment] + ReadPattern(text[5..])
    else if "[^/]" <= text then [OneChar] + ReadPattern(text[4..])
    else [Literal(text[0])] + ReadPattern(text[1..])
  }

  /** No piece starts with a bare quantifier, so a `*` never attaches to the piece before it. */
  lemma NoDanglingStar(atoms: seq<Atom>)
    ensures PatternText(atoms) != "" ==> PatternText(atoms)[0] != '*'
  {
  }

  lemma ReadLiteral(c: char, rest: string)
    ensures ReadPattern(AtomText(Literal(c)) + rest) == [Literal(c)] + ReadPattern(rest)
  {
    var text := AtomText(Literal(c)) + rest;
    if Special(c) {
      assert text[0] == '\\' && text[1] == c && text[2..] == rest;
    } else {
      assert text[0] == c && text[1..] == rest;
    }
  }

  lemma ReadOneChar(rest: string)
    requires rest == "" || rest[0] != '*'
    ensures ReadPattern(AtomText(OneChar) + rest) == [OneChar] + ReadPattern(rest)
  {
    var text := AtomText(OneChar) + rest;
    assert text[..4] == "[^/]" && text[4..] == rest;
    assert |text| > 4 ==> text[4] == rest[0];
  }

  lemma ReadRepeated(a: Atom, rest: string)
    requires a.Dirs? || a.Anything? || a.Segment?
    ensures ReadPattern(AtomText(a) + rest) == [a] + ReadPattern(rest)
  {
    var text := AtomText(a) + rest;
    assert text[..|AtomText(a)|] == AtomText(a) && text[|AtomText(a)|..] == rest;
  }

  /** The joined text reads back as exactly the pieces that were appended, whatever characters the glob holds. */
  lemma {:induction false} PatternReadsBack(atoms: seq<Atom>)
    ensures ReadPattern(PatternText(atoms)) == atoms
  {
    if atoms != [] {
      var rest := PatternText(atoms[1..]);
      NoDanglingStar(atoms[1..]);
      PatternReadsBack(atoms[1..]);
      hide ReadPattern, AtomText;
      match atoms[0]
      case Literal(c) => ReadLiteral(c, rest);
      case OneChar => ReadOneChar(rest);
      case _ => ReadRepeated(atoms[0], rest);
    }
  }

  // ----- the script's own loop

  /** One round of the loop takes the piece at the index off what is still to be compiled. */
  lemma OnePiece(glob: string, i: nat, out: seq<Atom>)
    requires i < |glob|
    ensures var (a, w) := PieceAt(glob, i);
            out + CompileFrom(glob, i) == (out + [a]) + CompileFrom(glob, i + w)
  {
    hide PieceAt;
  }

  /**
   The compiler as the script writes it: an index advanced over the glob, pieces appended, and
   their texts joined. The text is one that an engine reads as the compiled pieces.
   */
  method GlobToRegex(glob: string) returns (pattern: string)
    ensures pattern == PatternText(Compile(glob))
    ensures ReadPattern(pattern) == Compile(glob)
  {
    hide CompileFrom, Compile, PatternText, ReadPattern;
    var i, n := 0, |glob|;
    var out := [];
    while i < n
      invariant 0 <= i <= n
      invariant out + CompileFrom(glob, i) == CompileFrom(glob, 0)
    {
      OnePiece(glob, i, out);
      var c := glob[i];
      if c == '*' {
        if i + 1 < n && glob[i + 1] == '*' {
          i := i + 2;
          if i < n && glob[i] == '/' {
            out := out + [Dirs];
            i := i + 1;
          } else {
            out := out + [Anything];
          }
        } else {
          out := out + [Segment];
          i := i + 1;
        }
      } else if c == '?' {
        out := out + [OneChar];
        i := i + 1;
      } else {
        out := out + [Literal(c)];
        i := i + 1;
      }
    }
    NothingLeft(glob, out);
    CompileFromIsCompile(glob, 0);
    assert glob[0..] == glob;
    PatternReadsBack(out);
    pattern := PatternText(out);
  }

  lemma NothingLeft(glob: string, out: seq<Atom>)
    ensures out + CompileFrom(glob, |glob|) == out
  {
  }

  /** Does the path `rel` match the glob: compile, then match the whole path against the pattern text. */
  predicate LayoutGlobMatch(rel: string, glob: string) {
    FullMatch(SeqRegex(ReadPattern(PatternText(Compile(glob)))), rel)
  }

  // ----- the reference reading of a glob

  /** The number of characters before the first `/` of `s`, or |s|. */
  function NameLength(s: string): (n: nat)
    ensures n <= |s|
    ensures forall i | 0 <= i < n :: s[i] != '/'
    ensures n < |s| ==> s[n] == '/'
  {
    if s == "" || s[0] == '/' then 0 else 1 + NameLength(s[1..])
  }

  /**
   A glob read directly against a path, one path step at a time and with no regular
   expression: a `**` followed by a slash walks down whole directories, `**` swallows
   characters one by one, `*` does so inside one path segment.
   A directory or character swallowed by `**` may not hold a line feed.
   */
  predicate GlobMatches(g: string, s: string)
    decreases |g|, |s|
  {
    if g == "" then s == ""
    else if "**/" <= g then
      || GlobMatches(g[3..], s)
      || (var n := NameLength(s); n < |s| && '\n' !in s[..n] && GlobMatches(g, s[n + 1..]))
    else if "**" <= g then
      GlobMatches(g[2..], s) || (s != "" && s[0] != '\n' && GlobMatches(g, s[1..]))
    else if g[0] == '*' then
      GlobMatches(g[1..], s) || (s != "" && s[0] != '/' && GlobMatches(g, s[1..]))
    else if g[0] == '?' then
      s != "" && s[0] != '/' && GlobMatches(g[1..], s[1..])
    else
      s != "" && s[0] == g[0] && GlobMatches(g[1..], s[1..])
  }

  // ----- the compiled expression means what the reference says

  ghost predicate AllIn(k: CharClass, s: string) {
    forall i | 0 <= i < |s| :: InClass(k, s[i])
  }

  lemma {:induction false} StarClass(k: CharClass, s: string)
    ensures FullMatch(Star(Class(k)), s) <==> AllIn(k, s)
    decreases |s|
  {
    var r := Star(Class(k));
    if s != "" {
      StarClass(k, s[1..]);
      if FullMatch(r, s) {
        var j :| 0 < j <= |s| && FullMatch(Class(k), s[..j]) && FullMatch(r, s[j..]);
        assert j == 1 && s[..1][0] == s[0];
        assert forall i | 0 < i < |s| :: s[i] == s[1..][i - 1];
      }
      if AllIn(k, s) {
        assert FullMatch(Class(k), s[..1]) && FullMatch(r, s[1..]);
      }
    }
  }

  /** A class repeated, then `rest`: either stop here or swallow one character. */
  lemma StarStep(k: CharClass, rest: Regex, s: string)
    ensures FullMatch(Cat(Star(Class(k)), rest), s)
       <==> FullMatch(rest, s) || (s != "" && InClass(k, s[0]) && FullMatch(Cat(Star(Class(k)), rest), s[1..]))
  {
    var r := Cat(Star(Class(k)), rest);
    hide FullMatch;
    if FullMatch(r, s) { StarTake(k, rest, s); }
    if FullMatch(rest, s) { StarStop(k, rest, s); }
    if s != "" && InClass(k, s[0]) && FullMatch(r, s[1..]) { StarGive(k, rest, s); }
  }

  lemma Splits(a: Regex, b: Regex, s: string) returns (j: nat)
    requires FullMatch(Cat(a, b), s)
    ensures j <= |s| && FullMatch(a, s[..j]) && FullMatch(b, s[j..])
  {
    j :| 0 <= j <= |s| && FullMatch(a, s[..j]) && FullMatch(b, s[j..]);
  }

  lemma Joins(a: Regex, b: Regex, s: string, j: nat)
    requires j <= |s| && FullMatch(a, s[..j]) && FullMatch(b, s[j..])
    ensures FullMatch(Cat(a, b), s)
  {
  }

  lemma AllInCons(k: CharClass, c: char, w: string)
    ensures AllIn(k, [c] + w) <==> InClass(k, c) && AllIn(k, w)
  {
    hide InClass;
    var s := [c] + w;
    assert s[0] == c && forall i | 0 <= i < |w| :: s[i + 1] == w[i];
    assert forall i | 0 < i < |s| :: s[i] == w[i - 1];
  }

  /** A prefix and its remainder, past the first character. */
  lemma PastFirst(s: string, j: nat)
    requires 0 < j <= |s|
    ensures s[..j] == [s[0]] + s[1..][..j - 1] && s[1..][j - 1..] == s[j..]
  {
  }

  lemma StarTake(k: CharClass, rest: Regex, s: string)
    requires FullMatch(Cat(Star(Class(k)), rest), s)
    ensures FullMatch(rest, s) || (s != "" && InClass(k, s[0]) && FullMatch(Cat(Star(Class(k)), rest), s[1..]))
  {
    hide FullMatch, InClass, AllIn;
    var star := Star(Class(k));
    var j := Splits(star, rest, s);
    if j == 0 {
      assert s[0..] == s;
    } else {
      var t := s[1..];
      PastFirst(s, j);
      StarClass(k, s[..j]);
      AllInCons(k, s[0], t[..j - 1]);
      StarClass(k, t[..j - 1]);
      Joins(star, rest, t, j - 1);
    }
  }

  lemma StarStop(k: CharClass, rest: Regex, s: string)
    requires FullMatch(rest, s)
    ensures FullMatch(Cat(Star(Class(k)), rest), s)
  {
    assert s[0..] == s && FullMatch(Star(Class(k)), s[..0]);
  }

  lemma StarGive(k: CharClass, rest: Regex, s: string)
    requires s != "" && InClass(k, s[0]) && FullMatch(Cat(Star(Class(k)), rest), s[1..])
    ensures FullMatch(Cat(Star(Class(k)), rest), s)
  {
    hide FullMatch, InClass, AllIn;
    var t, star := s[1..], Star(Class(k));
    var j := Splits(star, rest, t);
    PastFirst(s, j + 1);
    StarClass(k, t[..j]);
    AllInCons(k, s[0], t[..j]);
    StarClass(k, s[..j + 1]);
    Joins(star, rest, s, j + 1);
  }

  /** One character of a class, then `rest`. */
  lemma ClassStep(k: CharClass, rest: Regex, s: string)
    ensures FullMatch(Cat(Class(k), rest), s)
       <==> s != "" && InClass(k, s[0]) && FullMatch(rest, s[1..])
  {
    if FullMatch(Cat(Class(k), rest), s) {
      var j :| 0 <= j <= |s| && FullMatch(Class(k), s[..j]) && FullMatch(rest, s[j..]);
      assert j == 1 && s[..1][0] == s[0];
    }
    if s != "" && InClass(k, s[0]) && FullMatch(rest, s[1..]) {
      assert FullMatch(Class(k), s[..1]);
    }
  }

  /** Zero or more whole directories: nothing, or line-free text ending in a slash. */
  ghost predicate DirPrefix(p: string) {
    p == "" || (p[|p| - 1] == '/' && '\n' !in p)
  }

  lemma DirsMatch(p: string)
    ensures FullMatch(AtomRegex(Dirs), p) <==> DirPrefix(p)
  {
    var star, slash := Star(Class(NotNewline)), Class(Exactly('/'));
    if p != "" {
      var n := |p| - 1;
      assert p == p[..n] + [p[n]];
      StarClass(NotNewline, p[..n]);
      if FullMatch(Cat(star, slash), p) {
        var j :| 0 <= j <= |p| && FullMatch(star, p[..j]) && FullMatch(slash, p[j..]);
        assert j == n && p[j..][0] == p[n];
      }
      if DirPrefix(p) {
        assert FullMatch(star, p[..n]) && FullMatch(slash, p[n..]);
      }
    }
  }

  /** A nonempty run of directories is its first directory and a run of the others. */
  lemma FirstDirectory(name: string, q: string)
    ensures DirPrefix(name + "/" + q) <==> '\n' !in name && DirPrefix(q)
  {
    var p := name + "/" + q;
    assert p[|name|] == '/';
    if q != "" { assert p[|p| - 1] == q[|q| - 1]; }
  }

  /** A run of directories, then text of the kind `rest`. */
  ghost predicate DirsThen(rest: string -> bool, s: string) {
    exists j | 0 <= j <= |s| :: DirPrefix(s[..j]) && rest(s[j..])
  }

  lemma DirsSplit(rest: Regex, s: string)
    ensures FullMatch(Cat(AtomRegex(Dirs), rest), s) <==> DirsThen(t => FullMatch(rest, t), s)
  {
    forall j | 0 <= j <= |s| ensures FullMatch(AtomRegex(Dirs), s[..j]) <==> DirPrefix(s[..j]) {
      DirsMatch(s[..j]);
    }
  }

  /** Zero directories, or one whole directory and then some more. */
  lemma DirsStep(rest: string -> bool, s: string)
    ensures var n := NameLength(s);
            DirsThen(rest, s)
            <==> rest(s) || (n < |s| && '\n' !in s[..n] && DirsThen(rest, s[n + 1..]))
  {
    hide DirsThen;
    var n := NameLength(s);
    if DirsThen(rest, s) && !rest(s) { DirsTake(rest, s); }
    if rest(s) { DirsStop(rest, s); }
    if n < |s| && '\n' !in s[..n] && DirsThen(rest, s[n + 1..]) { DirsAscend(rest, s, n); }
  }

  lemma DirsTake(rest: string -> bool, s: string)
    requires DirsThen(rest, s) && !rest(s)
    ensures var n := NameLength(s);
            n < |s| && '\n' !in s[..n] && DirsThen(rest, s[n + 1..])
  {
    var j :| 0 <= j <= |s| && DirPrefix(s[..j]) && rest(s[j..]);
    assert s[0..] == s;
    hide DirsThen, DirPrefix;
    DirsDescend(rest, s, j);
  }

  lemma DirsStop(rest: string -> bool, s: string)
    requires rest(s)
    ensures DirsThen(rest, s)
  {
    assert s[0..] == s && s[..0] == "" && DirPrefix(s[..0]);
  }

  lemma DirsDescend(rest: string -> bool, s: string, j: nat)
    requires 0 < j <= |s| && DirPrefix(s[..j]) && rest(s[j..])
    ensures var n := NameLength(s);
            n < |s| && '\n' !in s[..n] && DirsThen(rest, s[n + 1..])
  {
    var n := NameLength(s);
    LastIsSlash(s, j);
    var m := j - n - 1;
    PrefixSplit(s, n, m);
    var t := s[n + 1..];
    assert DirPrefix(t[..m]);
    assert t[m..] == s[j..];
  }

  lemma DirsAscend(rest: string -> bool, s: string, n: nat)
    requires n < |s| && s[n] == '/' && '\n' !in s[..n] && DirsThen(rest, s[n + 1..])
    ensures DirsThen(rest, s)
  {
    var t := s[n + 1..];
    var m :| 0 <= m <= |t| && DirPrefix(t[..m]) && rest(t[m..]);
    PrefixSplit(s, n, m);
    assert t[m..] == s[n + 1 + m..];
  }

  lemma LastIsSlash(s: string, j: nat)
    requires 0 < j <= |s| && DirPrefix(s[..j])
    ensures NameLength(s) < j
  {
    assert s[..j][j - 1] == s[j - 1];
  }

  lemma PrefixSplit(s: string, n: nat, m: nat)
    requires n + 1 + m <= |s| && s[n] == '/'
    ensures DirPrefix(s[..n + 1 + m]) <==> '\n' !in s[..n] && DirPrefix(s[n + 1..][..m])
  {
    var p, q := s[..n + 1 + m], s[n + 1..][..m];
    assert p == p[..n] + p[n..n + 1] + p[n + 1..];
    assert p[..n] == s[..n] && p[n..n + 1] == "/" && p[n + 1..] == q;
    FirstDirectory(s[..n], q);
  }

  lemma {:induction false} CompiledMatches(glob: string, rel: string)
    ensures FullMatch(SeqRegex(Compile(glob)), rel) <==> GlobMatches(glob, rel)
    decreases |glob|, |rel|
  {
    var atoms := Compile(glob);
    if glob != "" {
      assert SeqRegex(atoms) == Cat(AtomRegex(atoms[0]), SeqRegex(atoms[1..]));
      var rest := SeqRegex(atoms[1..]);
      if "**/" <= glob {
        assert atoms[1..] == Compile(glob[3..]);
        DirsSplit(rest, rel);
        DirsStep(t => FullMatch(rest, t), rel);
        CompiledMatches(glob[3..], rel);
        var n := NameLength(rel);
        if n < |rel| {
          DirsSplit(rest, rel[n + 1..]);
          CompiledMatches(glob, rel[n + 1..]);
        }
      } else if "**" <= glob {
        assert atoms[1..] == Compile(glob[2..]);
        StarStep(NotNewline, rest, rel);
        CompiledMatches(glob[2..], rel);
        if rel != "" { CompiledMatches(glob, rel[1..]); }
      } else {
        assert atoms[1..] == Compile(glob[1..]);
        if glob[0] == '*' {
          StarStep(NotSlash, rest, rel);
          CompiledMatches(glob[1..], rel);
          if rel != "" { CompiledMatches(glob, rel[1..]); }
        } else {
          ClassStep(if glob[0] == '?' then NotSlash else Exactly(glob[0]), rest, rel);
          if rel != "" { CompiledMatches(glob[1..], rel[1..]); }
        }
      }
    }
  }

  /** The emitted pattern accepts exactly the paths the direct reading accepts, on every path. */
  lemma GlobMatchCorrect(glob: string, rel: string)
    ensures LayoutGlobMatch(rel, glob) <==> GlobMatches(glob, rel)
  {
    PatternReadsBack(Compile(glob));
    CompiledMatches(glob, rel);
  }

  // ----- consequences

  function Slashes(s: string): nat {
    if s == "" then 0 else (if s[0] == '/' then 1 else 0) + Slashes(s[1..])
  }

  ghost predicate NoDoubleStar(g: string) {
    forall i | 0 <= i < |g| - 1 :: !(g[i] == '*' && g[i + 1] == '*')
  }

  /** Without `**` a glob is tied to one depth: it matches only paths with as many slashes as itself. */
  lemma {:induction false} DepthIsFixed(glob: string, rel: string)
    requires NoDoubleStar(glob) && LayoutGlobMatch(rel, glob)
    ensures Slashes(rel) == Slashes(glob)
    decreases |glob|, |rel|
  {
    GlobMatchCorrect(glob, rel);
    if glob != "" {
      assert NoDoubleStar(glob[1..]);
      if glob[0] == '*' && !GlobMatches(glob[1..], rel) {
        GlobMatchCorrect(glob, rel[1..]);
        DepthIsFixed(glob, rel[1..]);
      } else {
        var rest := if glob[0] == '*' then rel else rel[1..];
        GlobMatchCorrect(glob[1..], rest);
        DepthIsFixed(glob[1..], rest);
      }
    }
  }

  ghost predicate PlainText(s: string) {
    forall i | 0 <= i < |s| :: s[i] != '*' && s[i] != '?'
  }

  /** Literal text in front of a glob is matched by itself and by nothing else. */
  lemma {:induction false} LiteralPrefix(prefix: string, g: string, rel: string)
    requires PlainText(prefix)
    ensures GlobMatches(prefix + g, rel) <==> prefix <= rel && GlobMatches(g, rel[|prefix|..])
    decreases |prefix|
  {
    if prefix == "" {
      assert prefix + g == g && rel[0..] == rel;
    } else {
      assert (prefix + g)[1..] == prefix[1..] + g;
      assert (prefix + g)[0] == prefix[0];
      if rel != "" {
        LiteralPrefix(prefix[1..], g, rel[1..]);
        if prefix <= rel { assert rel[1..][|prefix[1..]|..] == rel[|prefix|..]; }
        if prefix[0] == rel[0] && prefix[1..] <= rel[1..] {
          assert prefix == [prefix[0]] + prefix[1..] && rel == [rel[0]] + rel[1..];
        }
      }
    }
  }

  /**
   The repair the compiler's comment describes: under `dir/` followed by `**` and a slash, a
   pattern for the tail matches a direct child and a child any number of directories down.
   */
  lemma AnyDepthBelow(dir: string, tail: string, between: seq<string>, rel: string)
    requires PlainText(dir)
    requires forall d | d in between :: '/' !in d && '\n' !in d
    requires LayoutGlobMatch(rel, tail)
    ensures LayoutGlobMatch(dir + Under(between, rel), dir + "**/" + tail)
  {
    GlobMatchCorrect(tail, rel);
    Descend(tail, between, rel);
    var path := dir + Under(between, rel);
    assert path[|dir|..] == Under(between, rel);
    assert dir + "**/" + tail == dir + ("**/" + tail);
    LiteralPrefix(dir, "**/" + tail, path);
    GlobMatchCorrect(dir + "**/" + tail, path);
  }

  /** `rel` below the given directories, outermost first. */
  function Under(dirs: seq<string>, rel: string): string {
    if dirs == [] then rel else dirs[0] + "/" + Under(dirs[1..], rel)
  }

  lemma {:induction false} Descend(tail: string, dirs: seq<string>, rel: string)
    requires forall d | d in dirs :: '/' !in d && '\n' !in d
    requires GlobMatches(tail, rel)
    ensures GlobMatches("**/" + tail, Under(dirs, rel))
    decreases |dirs|
  {
    var g := "**/" + tail;
    assert g[3..] == tail;
    if dirs != [] {
      Descend(tail, dirs[1..], rel);
      var s := Under(dirs, rel);
      var d := dirs[0];
      assert s == d + ("/" + Under(dirs[1..], rel));
      assert s[..|d|] == d && s[|d|] == '/';
      assert s[|d| + 1..] == Under(dirs[1..], rel);
      NameEndsAt(s, |d|);
    }
  }

  lemma {:induction false} NameEndsAt(s: string, n: nat)
    requires n < |s| && s[n] == '/' && '/' !in s[..n]
    ensures NameLength(s) == n
  {
    if n > 0 {
      assert s[0] == s[..n][0];
      assert s[1..][..n - 1] == s[..n][1..];
      NameEndsAt(s[1..], n - 1);
    }
  }
}
