/**
 Rule 1 of the report scrubber: every path segment after a per-user root becomes one generic
 word. The rule is a leftmost, non-overlapping substitution over text.
 */
module Scrubber {
  import opened Wrappers
  import Lines

  const GENERIC := "operator"
  const NEWLINE := "\n"

  /** `[^/\s"'<>\\]`. */
  predicate SegmentChar(c: char) {
    !Lines.IsSpace(c) && c !in "/\"'<>\\"
  }

  /** The root the text starts with, slashes included; empty when it starts with none. */
  function RootAt(t: string): (root: string)
    ensures root <= t
  {
    if "/home/" <= t then "/home/" else if "/Users/" <= t then "/Users/" else if "/scratch/" <= t then "/scratch/" else ""
  }

  /** The longest run of segment characters at the start, and what follows it. */
  function Split(t: string): (r: (string, string))
    ensures t == r.0 + r.1
    ensures forall c | c in r.0 :: SegmentChar(c)
    ensures r.1 == "" || !SegmentChar(r.1[0])
  {
    if t == "" || !SegmentChar(t[0]) then ("", t)
    else
      var (word, rest) := Split(t[1..]);
      ([t[0]] + word, rest)
  }

  /** A match at the start of the text, cut into its two groups and the rest. */
  datatype Hit = Hit(root: string, segment: string, rest: string)

  function Match(t: string): (m: Option<Hit>)
    ensures m.Some? ==> t == m.value.root + m.value.segment + m.value.rest && m.value.root != "" && m.value.segment != ""
  {
    var root := RootAt(t);
    var (segment, rest) := Split(t[|root|..]);
    if root != "" && segment != "" then Some(Hit(root, segment, rest)) else None
  }

  /** Rule 1 applied to a text. */
  function Sub(t: string): string
    decreases |t|
  {
    if t == "" then ""
    else match Match(t)
      case Some(h) => h.root + GENERIC + Sub(h.rest)
      case None => [t[0]] + Sub(t[1..])
  }

  /** `count_user_segments`: matches, left to right and without overlap, whose segment is not the generic word. */
  function Count(t: string): nat
    decreases |t|
  {
    if t == "" then 0
    else match Match(t)
      case Some(h) => (if h.segment != GENERIC then 1 else 0) + Count(h.rest)
      case None => Count(t[1..])
  }

  /** No root anywhere in the text, at any position and however the matches overlap, is followed by a private segment. */
  ghost predicate Clean(t: string) {
    forall i | 0 <= i < |t| :: CleanAt(t[i..])
  }

  predicate CleanAt(t: string) {
    Match(t).Some? ==> Match(t).value.segment == GENERIC
  }

  // ----- structure of matches

  /** The name between the slashes of a root. */
  function RootName(root: string): string {
    if root == "/home/" then "home" else if root == "/Users/" then "Users" else "scratch"
  }

  predicate IsRoot(root: string) {
    root == "/home/" || root == "/Users/" || root == "/scratch/"
  }

  lemma RootShape(t: string)
    requires RootAt(t) != ""
    ensures IsRoot(RootAt(t))
  {
  }

  /** A root is a slash, a name of segment characters, and a slash. */
  lemma RootParts(root: string)
    requires IsRoot(root)
    ensures root == "/" + RootName(root) + "/" && RootName(root) != ""
    ensures root[0] == '/' && forall c | c in RootName(root) :: SegmentChar(c)
  {
  }

  lemma RootInFront(root: string, x: string)
    requires IsRoot(root)
    ensures RootAt(root + x) == root
  {
    var t := root + x;
    assert t[..|root|] == root;
    assert t[1] == root[1];
  }

  lemma {:induction false} SplitOf(word: string, rest: string)
    requires forall c | c in word :: SegmentChar(c)
    requires rest == "" || !SegmentChar(rest[0])
    ensures Split(word + rest) == (word, rest)
  {
    if word == "" {
      assert word + rest == rest;
    } else {
      assert (word + rest)[1..] == word[1..] + rest;
      SplitOf(word[1..], rest);
      assert word == [word[0]] + word[1..];
    }
  }

  /** A root, a nonempty run of segment characters and a rest that cannot extend it are a match cut just there. */
  lemma MatchOf(root: string, word: string, rest: string)
    requires IsRoot(root) && word != "" && (forall c | c in word :: SegmentChar(c))
    requires rest == "" || !SegmentChar(rest[0])
    ensures Match(root + word + rest) == Some(Hit(root, word, rest))
  {
    var t := root + word + rest;
    assert t == root + (word + rest);
    RootInFront(root, word + rest);
    assert t[|root|..] == word + rest;
    SplitOf(word, rest);
  }

  lemma MatchParts(t: string)
    requires Match(t).Some?
    ensures IsRoot(Match(t).value.root)
    ensures var h := Match(t).value;
            (forall c | c in h.segment :: SegmentChar(c)) && (h.rest == "" || !SegmentChar(h.rest[0]))
  {
    RootShape(t);
  }

  lemma GenericIsSegment()
    ensures forall c | c in GENERIC :: SegmentChar(c)
  {
  }

  /** The substitution keeps the first character. */
  lemma FirstKept(t: string)
    requires t != ""
    ensures Sub(t) != "" && Sub(t)[0] == t[0]
  {
  }

  /** A match is rewritten to a match of the generic word, at the same root and with the scrubbed rest after it. */
  lemma RewrittenMatch(t: string)
    requires Match(t).Some?
    ensures var h := Match(t).value;
            Sub(t) == h.root + GENERIC + Sub(h.rest) && Match(Sub(t)) == Some(Hit(h.root, GENERIC, Sub(h.rest)))
  {
    var h := Match(t).value;
    MatchParts(t);
    if h.rest != "" { FirstKept(h.rest); }
    GenericIsSegment();
    MatchOf(h.root, GENERIC, Sub(h.rest));
  }

  /** The substitution keeps text up to the next slash. */
  lemma {:induction false} KeptUpToSlash(t: string, p: string, y: string) returns (w: string)
    requires '/' !in p && Sub(t) == p + y
    ensures t == p + w && Sub(w) == y
    decreases |p|
  {
    hide Match;
    if p == "" {
      w := t;
    } else {
      var q := p[1..];
      assert p == [p[0]] + q;
      NoSlashNoMatch(t, p + y);
      w := KeptUpToSlash(t[1..], q, y);
      assert t == [t[0]] + t[1..];
    }
  }

  /** A rewritten text that does not start with a slash begins with one unmatched character. */
  lemma NoSlashNoMatch(t: string, u: string)
    requires Sub(t) == u && u != "" && u[0] != '/'
    ensures t != "" && t[0] == u[0] && Sub(t[1..]) == u[1..]
  {
    hide IsRoot;
    if Match(t).Some? {
      MatchParts(t);
      RootParts(Match(t).value.root);
    }
  }

  /** If the rewritten text starts with a slash and a segment character, so did the text. */
  lemma SlashSegment(w: string, x: string)
    requires Sub(w) == "/" + x && x != "" && SegmentChar(x[0])
    ensures |w| > 1 && w[0] == '/' && SegmentChar(w[1])
  {
    if Match(w).Some? {
      MatchParts(w);
      var root := Match(w).value.root;
      RootParts(root);
      assert w[1] == root[1] == RootName(root)[0];
    } else {
      assert Sub(w) == [w[0]] + Sub(w[1..]);
      assert Sub(w[1..]) == Sub(w)[1..] == x;
      FirstKept(w[1..]);
    }
  }

  /** A root and a segment character in front of anything are a match. */
  lemma SomeMatch(root: string, x: string)
    requires IsRoot(root) && x != "" && SegmentChar(x[0])
    ensures Match(root + x).Some?
  {
    RootInFront(root, x);
    assert (root + x)[|root|..] == x;
  }

  /** Where the text has no match, the rewritten text has none either: rewriting later segments creates nothing. */
  lemma NoNewMatch(t: string)
    requires t != "" && Match(t) == None
    ensures Match(Sub(t)) == None
  {
    hide Match, IsRoot, RootName, SegmentChar;
    var u := Sub(t);
    assert u == [t[0]] + Sub(t[1..]);
    if Match(u).Some? {
      var h := Match(u).value;
      MatchParts(u);
      assert h.segment[0] in h.segment;
      assert u == h.root + (h.segment + h.rest);
      var x := MatchWasThere(t, h.root, h.segment + h.rest);
      SomeMatch(h.root, x);
    }
  }

  /** A root and a segment character at the start of the rewritten text were there in the text. */
  lemma MatchWasThere(t: string, root: string, x: string) returns (y: string)
    requires t != "" && IsRoot(root) && x != "" && SegmentChar(x[0])
    requires [t[0]] + Sub(t[1..]) == root + x
    ensures t == root + y && y != "" && SegmentChar(y[0])
  {
    hide IsRoot, RootName, SegmentChar;
    RootParts(root);
    var name := RootName(root);
    Peel(t[0], Sub(t[1..]), root, name, x);
    assert '/' !in name by { SlashIsNoSegment(); }
    var w := KeptUpToSlash(t[1..], name, "/" + x);
    SlashSegment(w, x);
    y := w[1..];
    Wrap(t, root, name, w);
  }

  lemma Peel(c: char, s: string, root: string, name: string, x: string)
    requires [c] + s == root + x && root == "/" + name + "/"
    ensures c == '/' && s == name + ("/" + x)
  {
    assert root + x == ['/'] + (name + ("/" + x));
    assert s == ([c] + s)[1..];
  }

  lemma Wrap(t: string, root: string, name: string, w: string)
    requires t != "" && t[0] == '/' && t[1..] == name + w && w != "" && w[0] == '/' && root == "/" + name + "/"
    ensures t == root + w[1..]
  {
    assert t == [t[0]] + t[1..];
  }

  lemma SlashIsNoSegment()
    ensures !SegmentChar('/') && !SegmentChar('\n')
  {
  }

  // ----- the rule drives its own counter to zero and is done after one application

  /** What the scan of the rewritten text does at its start, in terms of the scan of the text. */
  lemma RewrittenStep(t: string)
    requires t != ""
    ensures Match(t).Some? ==>
              var h := Match(t).value;
              Sub(t) != "" && Match(Sub(t)) == Some(Hit(h.root, GENERIC, Sub(h.rest)))
    ensures Match(t).None? ==>
              Sub(t) != "" && Match(Sub(t)) == None && Sub(t)[0] == t[0] && Sub(t)[1..] == Sub(t[1..])
  {
    FirstKept(t);
    if Match(t).Some? {
      RewrittenMatch(t);
    } else {
      NoNewMatch(t);
    }
  }

  lemma {:induction false} ScrubbedCountsZero(t: string)
    ensures Count(Sub(t)) == 0
    decreases |t|
  {
    hide Match;
    if t != "" {
      RewrittenStep(t);
      ScrubbedCountsZero(if Match(t).Some? then Match(t).value.rest else t[1..]);
    }
  }

  lemma {:induction false} ScrubIsIdempotent(t: string)
    ensures Sub(Sub(t)) == Sub(t)
    decreases |t|
  {
    hide Match;
    if t != "" {
      RewrittenStep(t);
      ScrubIsIdempotent(if Match(t).Some? then Match(t).value.rest else t[1..]);
    }
  }

  // ----- the counter is an exact detector

  lemma NoRootHere(t: string)
    requires t == "" || t[0] != '/' || (|t| > 1 && t[1] == GENERIC[0])
    ensures RootAt(t) == ""
  {
  }

  /** Inside a match of the generic word no other match starts. */
  lemma NothingInside(root: string, rest: string, i: nat)
    requires IsRoot(root) && 0 < i < |root + GENERIC|
    ensures RootAt((root + GENERIC + rest)[i..]) == ""
  {
    hide IsRoot, RootName, SegmentChar, RootAt;
    var t := root + GENERIC + rest;
    RootParts(root);
    SlashIsNoSegment();
    GenericIsSegment();
    var at := t[i..];
    if i == |root| - 1 {
      assert at[1] == t[|root|] == GENERIC[0];
    } else if i < |root| {
      assert at[0] == root[i] == RootName(root)[i - 1];
    } else {
      assert at[0] == GENERIC[i - |root|];
    }
    NoRootHere(at);
  }

  /** Text counts zero exactly when no private segment follows a root anywhere in it, overlapping matches included. */
  lemma {:induction false} CountsZeroIffClean(t: string)
    ensures Count(t) == 0 <==> Clean(t)
    decreases |t|
  {
    hide Match;
    if t != "" {
      var rest := if Match(t).Some? then Match(t).value.rest else t[1..];
      CountsZeroIffClean(rest);
      CleanSplits(t, rest);
    }
  }

  /** Cleanness of a text is cleanness at its start and of what the scan goes on with. */
  lemma CleanSplits(t: string, rest: string)
    requires t != "" && rest == if Match(t).Some? then Match(t).value.rest else t[1..]
    ensures Clean(t) <==> CleanAt(t) && Clean(rest)
  {
    hide RootAt, CleanAt;
    assert t[0..] == t;
    var k := |t| - |rest|;
    forall i | 0 <= i < |rest| ensures rest[i..] == t[k + i..] {}
    if Clean(t) {
      forall i | 0 <= i < |rest| ensures CleanAt(rest[i..]) { assert CleanAt(t[k + i..]); }
    }
    if CleanAt(t) && Clean(rest) {
      forall i | 0 <= i < |t| ensures CleanAt(t[i..]) {
        if i >= k {
          assert CleanAt(rest[i - k..]);
        } else if i > 0 {
          CleanInside(t, i);
        }
      }
    }
  }

  lemma CleanInside(t: string, i: nat)
    requires CleanAt(t) && Match(t).Some? && 0 < i < |t| - |Match(t).value.rest|
    ensures CleanAt(t[i..])
  {
    hide RootAt;
    var h := Match(t).value;
    MatchParts(t);
    assert t == h.root + GENERIC + h.rest;
    NothingInside(h.root, h.rest, i);
  }

  /** After one application no root in the text is followed by anything but the generic word. */
  lemma ScrubbedIsClean(t: string)
    ensures Clean(Sub(t))
  {
    ScrubbedCountsZero(t);
    CountsZeroIffClean(Sub(t));
  }

  /** The rule leaves a text alone exactly when it was clean. */
  lemma {:induction false} UntouchedIffClean(t: string)
    ensures Sub(t) == t <==> Clean(t)
    decreases |t|
  {
    CountsZeroIffClean(t);
    UntouchedIffZero(t);
  }

  lemma {:induction false} UntouchedIffZero(t: string)
    ensures Sub(t) == t <==> Count(t) == 0
    decreases |t|
  {
    hide Match;
    if t != "" {
      if Match(t).Some? {
        var h := Match(t).value;
        RewrittenStep(t);
        UntouchedIffZero(h.rest);
      } else {
        UntouchedIffZero(t[1..]);
        assert t == [t[0]] + t[1..];
        assert Sub(t)[1..] == Sub(t[1..]);
      }
    }
  }

  // ----- what the rule does, read off the text

  /** The characters a path segment ends at: white space, and the quotation marks, slash, brackets and backslash by their codes. */
  lemma SegmentCharExactly(c: char)
    ensures SegmentChar(c) <==> !Lines.IsSpace(c) && c as int !in {34, 39, 47, 60, 62, 92}
  {
    hide Lines.IsSpace;
  }

  /** A match at the start of a text: one of the three roots, and behind it as many segment characters as there are, at least one. */
  lemma MatchExactly(t: string, root: string, segment: string, rest: string)
    ensures Match(t) == Some(Hit(root, segment, rest))
       <==> && (root == "/home/" || root == "/Users/" || root == "/scratch/") && t == root + segment + rest
            && segment != "" && (forall c | c in segment :: SegmentChar(c)) && (rest == "" || !SegmentChar(rest[0]))
  {
    hide SegmentChar;
    if Match(t) == Some(Hit(root, segment, rest)) {
      MatchParts(t);
    } else if IsRoot(root) && t == root + segment + rest && segment != ""
              && (forall c | c in segment :: SegmentChar(c)) && (rest == "" || !SegmentChar(rest[0])) {
      hide Match;
      MatchOf(root, segment, rest);
      assert false;
    }
  }

  /** A text in which no match starts is left alone and counts nothing. */
  lemma {:induction false} NothingToScrub(t: string)
    requires forall i | 0 <= i < |t| :: Match(t[i..]) == None
    ensures Sub(t) == t && Count(t) == 0
    decreases |t|
  {
    hide Match;
    if t != "" {
      assert t[0..] == t;
      forall i | 0 <= i < |t[1..]| ensures Match(t[1..][i..]) == None { assert t[1..][i..] == t[i + 1..]; }
      NothingToScrub(t[1..]);
    }
  }

  /** The first match is rewritten and counted unless its segment is the generic word, and the rule goes on behind it. */
  lemma {:induction false} FirstMatchScrubbed(a: string, root: string, segment: string, rest: string)
    requires Match(root + segment + rest) == Some(Hit(root, segment, rest))
    requires forall i | 0 <= i < |a| :: Match((a + (root + segment + rest))[i..]) == None
    ensures Sub(a + (root + segment + rest)) == a + root + "operator" + Sub(rest)
    ensures Count(a + (root + segment + rest)) == (if segment == "operator" then 0 else 1) + Count(rest)
    decreases |a|
  {
    hide Match;
    var hit := root + segment + rest;
    var t := a + hit;
    if a == "" {
      assert t == hit && hit != "" by { EmptyHasNoMatch(); }
      assert "" + root + "operator" + Sub(rest) == root + "operator" + Sub(rest);
    } else {
      assert t[0..] == t && t[1..] == a[1..] + hit;
      forall i | 0 <= i < |a[1..]| ensures Match((a[1..] + hit)[i..]) == None { assert (a[1..] + hit)[i..] == t[i + 1..]; }
      FirstMatchScrubbed(a[1..], root, segment, rest);
      assert a == [a[0]] + a[1..];
    }
  }

  lemma EmptyHasNoMatch()
    ensures Match("") == None
  {
  }

  // ----- nothing but segments is touched

  /** The text with every matched segment cut out. */
  function Frame(t: string): string
    decreases |t|
  {
    if t == "" then ""
    else match Match(t)
      case Some(h) => h.root + Frame(h.rest)
      case None => [t[0]] + Frame(t[1..])
  }

  /** Scrubbing keeps everything outside the matched segments, in place. */
  lemma {:induction false} FrameKept(t: string)
    ensures Frame(Sub(t)) == Frame(t)
    decreases |t|
  {
    hide Match;
    if t != "" {
      RewrittenStep(t);
      FrameKept(if Match(t).Some? then Match(t).value.rest else t[1..]);
    }
  }

  // ----- line by line is the same as at once

  /** A match never crosses a line feed. */
  lemma MatchStopsAtNewline(a: string, b: string)
    requires a != ""
    ensures Match(a).Some? ==>
              var h := Match(a).value;
              Match(a + NEWLINE + b) == Some(Hit(h.root, h.segment, h.rest + NEWLINE + b))
    ensures Match(a).None? ==> Match(a + NEWLINE + b) == None
  {
    hide Match, IsRoot, SegmentChar;
    var t := a + NEWLINE + b;
    if Match(a).Some? {
      var h := Match(a).value;
      MatchParts(a);
      var rest := h.rest + NEWLINE + b;
      SlashIsNoSegment();
      assert rest[0] == if h.rest == "" then '\n' else h.rest[0];
      assert t == h.root + h.segment + rest;
      MatchOf(h.root, h.segment, rest);
    } else if Match(t).Some? {
      var h := Match(t).value;
      MatchParts(t);
      assert h.segment[0] in h.segment;
      assert t == h.root + (h.segment + h.rest);
      NewlineAfter(a, b, h.root, h.segment + h.rest);
      SomeMatch(h.root, a[|h.root|..]);
    }
  }

  lemma NewlineAfter(a: string, b: string, root: string, x: string)
    requires IsRoot(root) && x != "" && SegmentChar(x[0]) && a + NEWLINE + b == root + x
    ensures root <= a && a == root + a[|root|..] && a[|root|..] != "" && a[|root|] == x[0]
  {
    var t := root + x;
    RootParts(root);
    assert t[|a|] == '\n' && !SegmentChar('\n');
    assert forall i | 0 <= i < |root| :: t[i] == root[i] && root[i] != '\n';
    assert t[|root|] == x[0];
    assert |root| < |a|;
    assert a == t[..|a|];
  }

  lemma {:induction false} ScrubSplitsAtNewline(a: string, b: string)
    ensures Sub(a + NEWLINE + b) == Sub(a) + NEWLINE + Sub(b)
    ensures Count(a + NEWLINE + b) == Count(a) + Count(b)
    decreases |a|
  {
    hide Match;
    var t := a + NEWLINE + b;
    if a == "" {
      NoMatchAtNewline(b);
      assert t == [NEWLINE[0]] + b && t[1..] == b;
    } else {
      MatchStopsAtNewline(a, b);
      if Match(a).Some? {
        ScrubSplitsAtNewline(Match(a).value.rest, b);
      } else {
        assert t[1..] == a[1..] + NEWLINE + b;
        ScrubSplitsAtNewline(a[1..], b);
      }
    }
  }

  lemma NoMatchAtNewline(b: string)
    ensures Match("" + NEWLINE + b) == None
  {
  }

  function CountLines(lines: seq<string>): nat {
    if lines == [] then 0 else CountLines(lines[..|lines| - 1]) + Count(lines[|lines| - 1])
  }

  /** The count over every line except the one with this index. */
  function CountOthers(lines: seq<string>, skip: nat): nat {
    if lines == [] then 0
    else
      var n := |lines| - 1;
      CountOthers(lines[..n], skip) + (if n == skip then 0 else Count(lines[n]))
  }

  function SubLines(lines: seq<string>): seq<string> {
    seq(|lines|, i requires 0 <= i < |lines| => Sub(lines[i]))
  }

  lemma {:induction false} CountLinesFront(lines: seq<string>)
    requires lines != []
    ensures CountLines(lines) == Count(lines[0]) + CountLines(lines[1..])
    decreases |lines|
  {
    hide Count;
    if |lines| > 1 {
      var n := |lines| - 1;
      CountLinesFront(lines[..n]);
      assert lines[..n][1..] == lines[1..][..n - 1];
    }
  }

  /** Scrubbing and counting line by line agree with scrubbing and counting the joined text. */
  lemma {:induction false} LineByLine(lines: seq<string>)
    requires lines != []
    ensures Lines.Join(SubLines(lines)) == Sub(Lines.Join(lines))
    ensures Count(Lines.Join(lines)) == CountLines(lines)
    decreases |lines|
  {
    CountLinesFront(lines);
    if |lines| > 1 {
      LineByLine(lines[1..]);
      assert SubLines(lines)[1..] == SubLines(lines[1..]);
      ScrubSplitsAtNewline(lines[0], Lines.Join(lines[1..]));
    }
  }

  lemma {:induction false} ZeroLines(lines: seq<string>, skip: nat)
    requires forall i | 0 <= i < |lines| && i != skip :: Count(lines[i]) == 0
    ensures CountLines(lines) == if skip < |lines| then Count(lines[skip]) else 0
  {
    hide Count;
    if lines != [] {
      var n := |lines| - 1;
      assert forall i | 0 <= i < n :: lines[..n][i] == lines[i];
      ZeroLines(lines[..n], skip);
    }
  }

  /**
   The final count over the outer page is the count of its manifest line alone: the scrub
   refuses for the outer page exactly when the re-assembled manifest line holds a private segment.
   */
  lemma OnlyManifestLineCanRefuse(before: seq<string>, after: seq<string>, manifest: nat)
    requires |before| == |after| && manifest < |after|
    requires forall i | 0 <= i < |after| && i != manifest :: after[i] == Sub(before[i])
    ensures Count(Lines.Join(after)) == Count(after[manifest])
    ensures Count(Lines.Join(after)) == 0 <==> Clean(after[manifest])
  {
    LineByLine(after);
    forall i | 0 <= i < |after| && i != manifest ensures Count(after[i]) == 0 { ScrubbedCountsZero(before[i]); }
    ZeroLines(after, manifest);
    CountsZeroIffClean(after[manifest]);
  }

  // ----- the object that applies the rule and keeps the count

  /** A decoded manifest value. An object keeps its entries in insertion order. */
  datatype Json = Text(s: string) | Array(items: seq<Json>) | Object(entries: seq<Pair>) | Atom
  datatype Pair = Pair(key: string, value: Json)

  /** Dictionary assignment: a repeated key keeps its place and takes the new value. */
  function Put(entries: seq<Pair>, key: string, value: Json): seq<Pair> {
    if entries == [] then [Pair(key, value)]
    else if entries[0].key == key then [Pair(key, value)] + entries[1..]
    else [entries[0]] + Put(entries[1..], key, value)
  }

  function WalkItems(items: seq<Json>): seq<Json> {
    if items == [] then []
    else WalkItems(items[..|items| - 1]) + [WalkValue(items[|items| - 1])]
  }

  function WalkEntries(entries: seq<Pair>): seq<Pair> {
    if entries == [] then []
    else
      var last := entries[|entries| - 1];
      Put(WalkEntries(entries[..|entries| - 1]), Sub(last.key), WalkValue(last.value))
  }

  /** A manifest value with rule 1 applied to every string in it, keys included. */
  function WalkValue(v: Json): Json {
    match v
    case Text(s) => Text(Sub(s))
    case Array(items) => Array(WalkItems(items))
    case Object(entries) => Object(WalkEntries(entries))
    case Atom => Atom
  }

  function CountItems(items: seq<Json>): nat {
    if items == [] then 0 else CountItems(items[..|items| - 1]) + CountValue(items[|items| - 1])
  }

  function CountEntries(entries: seq<Pair>): nat {
    if entries == [] then 0
    else
      var last := entries[|entries| - 1];
      CountEntries(entries[..|entries| - 1]) + Count(last.key) + CountValue(last.value)
  }

  function CountValue(v: Json): nat {
    match v
    case Text(s) => Count(s)
    case Array(items) => CountItems(items)
    case Object(entries) => CountEntries(entries)
    case Atom => 0
  }

  lemma Regroup(a: string, b: string, c: string, d: string)
    ensures a + (b + c + d) == a + b + c + d
    ensures c == "" ==> a + (b + d) == a + b + d
  {
  }

  class Rules {
    var rule1: nat

    constructor ()
      ensures rule1 == 0
    {
      rule1 := 0;
    }

    /** The substitution with its callback: scan, replace each match, and count the private ones. */
    method Apply(text: string) returns (out: string)
      modifies this
      ensures out == Sub(text) && rule1 == old(rule1) + Count(text)
    {
      out := "";
      var rest := text;
      while rest != ""
        invariant out + Sub(rest) == Sub(text)
        invariant rule1 + Count(rest) == old(rule1) + Count(text)
        decreases |rest|
      {
        hide Match;
        ghost var scanned := out;
        var m := Match(rest);
        if m.Some? {
          if m.value.segment != GENERIC {
            rule1 := rule1 + 1;
          }
          out := out + m.value.root + GENERIC;
          Regroup(scanned, m.value.root, GENERIC, Sub(m.value.rest));
          rest := m.value.rest;
        } else {
          out := out + [rest[0]];
          Regroup(scanned, [rest[0]], "", Sub(rest[1..]));
          rest := rest[1..];
        }
      }
    }

    /** Rebuild a manifest value, applying the rule to every string. */
    method Walk(v: Json) returns (out: Json)
      modifies this
      ensures out == WalkValue(v) && rule1 == old(rule1) + CountValue(v)
      decreases v
    {
      match v {
        case Text(s) =>
          var t := Apply(s);
          out := Text(t);
        case Array(items) =>
          var done := [];
          for i := 0 to |items|
            invariant done == WalkItems(items[..i]) && rule1 == old(rule1) + CountItems(items[..i])
          {
            assert items[..i + 1][..i] == items[..i];
            var w := Walk(items[i]);
            done := done + [w];
          }
          assert items[..|items|] == items;
          out := Array(done);
        case Object(entries) =>
          var done := [];
          for i := 0 to |entries|
            invariant done == WalkEntries(entries[..i]) && rule1 == old(rule1) + CountEntries(entries[..i])
          {
            assert entries[..i + 1][..i] == entries[..i];
            var key := Apply(entries[i].key);
            var w := Walk(entries[i].value);
            done := Put(done, key, w);
          }
          assert entries[..|entries|] == entries;
          out := Object(done);
        case Atom =>
          out := Atom;
      }
    }

    /** The line loop: every line but the manifest's is rewritten in place. */
    method ScrubLines(lines: array<string>, manifest: nat)
      modifies this, lines
      ensures forall i | 0 <= i < lines.Length :: lines[i] == if i == manifest then old(lines[i]) else Sub(old(lines[i]))
      ensures rule1 == old(rule1) + CountOthers(old(lines[..]), manifest)
    {
      hide Sub, Count;
      ghost var before := lines[..];
      for i := 0 to lines.Length
        invariant forall j | 0 <= j < i :: lines[j] == if j == manifest then before[j] else Sub(before[j])
        invariant forall j | i <= j < lines.Length :: lines[j] == before[j]
        invariant rule1 == old(rule1) + CountOthers(before[..i], manifest)
      {
        assert before[..i + 1][..i] == before[..i];
        if i != manifest {
          var t := Apply(lines[i]);
          lines[i] := t;
        }
      }
      assert before[..|before|] == before;
    }
  }

  // ----- what a walk makes of a value

  /** The value under a key. */
  function ValueOf(entries: seq<Pair>, key: string): Option<Json> {
    if entries == [] then None else if entries[0].key == key then Some(entries[0].value) else ValueOf(entries[1..], key)
  }

  /** An assignment changes what stands under its key, and nothing else; a new key goes to the end, an old one stays where it is. */
  lemma {:induction false} PutExactly(entries: seq<Pair>, key: string, value: Json, k: string)
    ensures ValueOf(Put(entries, key, value), k) == if k == key then Some(value) else ValueOf(entries, k)
    ensures (forall p | p in entries :: p.key != key) ==> Put(entries, key, value) == entries + [Pair(key, value)]
    ensures (exists p | p in entries :: p.key == key) ==>
              |Put(entries, key, value)| == |entries| && forall i | 0 <= i < |entries| :: Put(entries, key, value)[i].key == entries[i].key
    decreases |entries|
  {
    if entries != [] {
      assert entries == [entries[0]] + entries[1..];
      if entries[0].key != key { PutExactly(entries[1..], key, value, k); }
    }
  }

  lemma {:induction false} NoValueUnder(entries: seq<Pair>, key: string)
    ensures ValueOf(entries, key) == None <==> forall p | p in entries :: p.key != key
  {
    if entries != [] {
      assert entries == [entries[0]] + entries[1..];
      NoValueUnder(entries[1..], key);
    }
  }

  lemma WalkedLast(entries: seq<Pair>, key: string)
    requires entries != []
    ensures var n := |entries| - 1;
            ValueOf(WalkEntries(entries), key)
            == if Sub(entries[n].key) == key then Some(WalkValue(entries[n].value)) else ValueOf(WalkEntries(entries[..n]), key)
  {
    hide Sub, WalkValue;
    var n := |entries| - 1;
    PutExactly(WalkEntries(entries[..n]), Sub(entries[n].key), WalkValue(entries[n].value), key);
  }

  /** A key no entry is scrubbed to is not in the walked object. */
  lemma {:induction false} NoEntryNoKey(entries: seq<Pair>, key: string)
    requires forall i | 0 <= i < |entries| :: Sub(entries[i].key) != key
    ensures ValueOf(WalkEntries(entries), key) == None
    decreases |entries|
  {
    hide Sub, WalkValue;
    if entries != [] {
      WalkedLast(entries, key);
      NoEntryNoKey(entries[..|entries| - 1], key);
    }
  }

  /** Under a key of the walked object stands the walked value of the last entry whose key is scrubbed to it. */
  lemma {:induction false} LastEntryWins(entries: seq<Pair>, key: string, i: nat)
    requires i < |entries| && Sub(entries[i].key) == key && forall j | i < j < |entries| :: Sub(entries[j].key) != key
    ensures ValueOf(WalkEntries(entries), key) == Some(WalkValue(entries[i].value))
    decreases |entries|
  {
    hide Sub, WalkValue;
    WalkedLast(entries, key);
    if i < |entries| - 1 { LastEntryWins(entries[..|entries| - 1], key, i); }
  }

  /** An array is walked item by item, in place. */
  lemma {:induction false} ItemsInPlace(items: seq<Json>)
    ensures |WalkItems(items)| == |items| && forall i | 0 <= i < |items| :: WalkItems(items)[i] == WalkValue(items[i])
    decreases |items|
  {
    hide WalkValue;
    if items != [] { ItemsInPlace(items[..|items| - 1]); }
  }

  /** The walked entries, one for one. */
  ghost predicate OneForOne(walked: seq<Pair>, entries: seq<Pair>) {
    |walked| == |entries| && forall i | 0 <= i < |entries| :: walked[i] == Pair(Sub(entries[i].key), WalkValue(entries[i].value))
  }

  ghost predicate KeysDiffer(entries: seq<Pair>) {
    forall i, j | 0 <= i < j < |entries| :: Sub(entries[i].key) != Sub(entries[j].key)
  }

  /** An object whose scrubbed keys differ is walked entry by entry, in place. */
  lemma {:induction false} EntriesInPlace(entries: seq<Pair>)
    requires KeysDiffer(entries)
    ensures OneForOne(WalkEntries(entries), entries)
    decreases |entries|
  {
    hide Sub, WalkValue, Put, OneForOne, KeysDiffer;
    if entries != [] {
      var n := |entries| - 1;
      FrontDiffers(entries);
      EntriesInPlace(entries[..n]);
      LastGoesBehind(WalkEntries(entries[..n]), entries);
    } else {
      NothingWalked();
    }
  }

  lemma NothingWalked()
    ensures OneForOne([], [])
  {
  }

  lemma FrontDiffers(entries: seq<Pair>)
    requires KeysDiffer(entries) && entries != []
    ensures KeysDiffer(entries[..|entries| - 1])
  {
    hide Sub;
  }

  lemma LastGoesBehind(walked: seq<Pair>, entries: seq<Pair>)
    requires KeysDiffer(entries) && entries != [] && OneForOne(walked, entries[..|entries| - 1])
    ensures var last := entries[|entries| - 1]; OneForOne(Put(walked, Sub(last.key), WalkValue(last.value)), entries)
  {
    hide Sub, WalkValue, Put;
    var n := |entries| - 1;
    PutExactly(walked, Sub(entries[n].key), WalkValue(entries[n].value), "");
    forall p | p in walked ensures p.key != Sub(entries[n].key) {
      var i :| 0 <= i < n && walked[i] == p;
      assert entries[..n][i] == entries[i];
    }
    assert forall i | 0 <= i < n :: entries[..n][i] == entries[i];
  }

  /** A string that is walked is scrubbed, and nothing else is touched. */
  lemma LeavesWalked(s: string, items: seq<Json>, entries: seq<Pair>)
    ensures WalkValue(Text(s)) == Text(Sub(s)) && WalkValue(Atom) == Atom
    ensures WalkValue(Array(items)) == Array(WalkItems(items)) && WalkValue(Object(entries)) == Object(WalkEntries(entries))
  {
  }

  /** Some string of the value, a key included, is this one. */
  ghost predicate Mentions(v: Json, s: string)
    decreases v
  {
    match v
    case Text(t) => s == t
    case Array(items) => exists i | 0 <= i < |items| :: Mentions(items[i], s)
    case Object(entries) => exists i | 0 <= i < |entries| :: entries[i].key == s || Mentions(entries[i].value, s)
    case Atom => false
  }

  /** A value counts zero exactly when every string in it is clean. */
  lemma {:induction false} ValueZeroIffClean(v: Json)
    ensures CountValue(v) == 0 <==> forall s | Mentions(v, s) :: Clean(s)
    decreases v
  {
    hide Clean, Count;
    match v {
      case Text(t) => CountsZeroIffClean(t);
      case Array(items) => ItemsZeroIffClean(v, items);
      case Object(entries) => EntriesZeroIffClean(v, entries);
      case Atom =>
    }
  }

  lemma {:induction false} ItemsZeroIffClean(whole: Json, items: seq<Json>)
    requires forall i | 0 <= i < |items| :: items[i] < whole
    ensures CountItems(items) == 0 <==> forall i, s | 0 <= i < |items| && Mentions(items[i], s) :: Clean(s)
    decreases whole, |items|
  {
    hide Clean, CountValue, Mentions;
    if items != [] {
      var n := |items| - 1;
      ItemsZeroIffClean(whole, items[..n]);
      ValueZeroIffClean(items[n]);
      assert forall i | 0 <= i < n :: items[..n][i] == items[i];
    }
  }

  lemma {:induction false} EntriesZeroIffClean(whole: Json, entries: seq<Pair>)
    requires forall i | 0 <= i < |entries| :: entries[i].value < whole
    ensures CountEntries(entries) == 0
       <==> forall i | 0 <= i < |entries| :: Clean(entries[i].key) && forall s | Mentions(entries[i].value, s) :: Clean(s)
    decreases whole, |entries|
  {
    hide Clean, CountValue, Mentions, Count;
    if entries != [] {
      var n := |entries| - 1;
      EntriesZeroIffClean(whole, entries[..n]);
      CountsZeroIffClean(entries[n].key);
      ValueZeroIffClean(entries[n].value);
      assert forall i | 0 <= i < n :: entries[..n][i] == entries[i];
    }
  }

  /** A walked manifest value counts zero, even when scrubbed keys collide and entries are dropped. */
  lemma {:induction false} WalkedCountsZero(v: Json)
    ensures CountValue(WalkValue(v)) == 0
    decreases v
  {
    match v {
      case Text(s) => ScrubbedCountsZero(s);
      case Array(items) => WalkedItemsCountZero(v, items);
      case Object(entries) => WalkedEntriesCountZero(v, entries);
      case Atom =>
    }
  }

  lemma {:induction false} WalkedItemsCountZero(whole: Json, items: seq<Json>)
    requires forall i | 0 <= i < |items| :: items[i] < whole
    ensures CountItems(WalkItems(items)) == 0
    decreases whole, |items|
  {
    if items != [] {
      var n := |items| - 1;
      WalkedItemsCountZero(whole, items[..n]);
      WalkedCountsZero(items[n]);
      assert WalkItems(items)[..|WalkItems(items)| - 1] == WalkItems(items[..n]);
    }
  }

  lemma {:induction false} WalkedEntriesCountZero(whole: Json, entries: seq<Pair>)
    requires forall i | 0 <= i < |entries| :: entries[i].value < whole
    ensures CountEntries(WalkEntries(entries)) == 0
    decreases whole, |entries|
  {
    if entries != [] {
      var n := |entries| - 1;
      WalkedEntriesCountZero(whole, entries[..n]);
      WalkedCountsZero(entries[n].value);
      ScrubbedCountsZero(entries[n].key);
      PutCountsZero(WalkEntries(entries[..n]), Sub(entries[n].key), WalkValue(entries[n].value));
    }
  }

  lemma {:induction false} CountEntriesFront(entries: seq<Pair>)
    requires entries != []
    ensures CountEntries(entries) == Count(entries[0].key) + CountValue(entries[0].value) + CountEntries(entries[1..])
    decreases |entries|
  {
    hide Count, CountValue;
    if |entries| > 1 {
      var n := |entries| - 1;
      CountEntriesFront(entries[..n]);
      assert entries[..n][1..] == entries[1..][..n - 1];
    }
  }

  lemma {:induction false} PutCountsZero(entries: seq<Pair>, key: string, value: Json)
    requires CountEntries(entries) == 0 && Count(key) == 0 && CountValue(value) == 0
    ensures CountEntries(Put(entries, key, value)) == 0
    decreases |entries|
  {
    if entries != [] {
      CountEntriesFront(entries);
      if entries[0].key != key { PutCountsZero(entries[1..], key, value); }
    }
    var after := Put(entries, key, value);
    CountEntriesFront(after);
  }
}
