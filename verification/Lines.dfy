/** Python's view of a text as lines: `splitlines`, `"\n".join` and `strip`. */
module Lines {

  /** The characters `str.strip` removes. */
  predicate IsSpace(c: char) {
    || 9 <= c as int <= 13 || 28 <= c as int <= 32 || c as int == 0x85 || c as int == 0xa0
    || c as int == 0x1680 || 0x2000 <= c as int <= 0x200a
    || c as int in {0x2028, 0x2029, 0x202f, 0x205f, 0x3000}
  }

  /** `not s.strip()`. */
  predicate Blank(s: string) {
    forall i | 0 <= i < |s| :: IsSpace(s[i])
  }

  function StripLeft(s: string): string {
    if s != "" && IsSpace(s[0]) then StripLeft(s[1..]) else s
  }

  function StripRight(s: string): string {
    if s != "" && IsSpace(s[|s| - 1]) then StripRight(s[..|s| - 1]) else s
  }

  function Strip(s: string): string {
    StripRight(StripLeft(s))
  }

  predicate Stripped(s: string) {
    s != "" ==> !IsSpace(s[0]) && !IsSpace(s[|s| - 1])
  }

  lemma {:induction false} StripLeftHead(s: string)
    ensures StripLeft(s) == "" <==> Blank(s)
    ensures StripLeft(s) != "" ==> !IsSpace(StripLeft(s)[0])
  {
    hide IsSpace;
    if s != "" {
      StripLeftHead(s[1..]);
      if IsSpace(s[0]) {
        assert Blank(s) <==> Blank(s[1..]) by {
          if Blank(s[1..]) {
            forall i | 0 <= i < |s| ensures IsSpace(s[i]) { if i > 0 { assert s[i] == s[1..][i - 1]; } }
          }
        }
      }
    }
  }

  lemma {:induction false} StripRightEnds(s: string)
    requires s != "" && !IsSpace(s[0])
    ensures StripRight(s) != "" && StripRight(s)[0] == s[0] && !IsSpace(StripRight(s)[|StripRight(s)| - 1])
  {
    hide IsSpace;
    if IsSpace(s[|s| - 1]) { StripRightEnds(s[..|s| - 1]); }
  }

  lemma StripStrips(s: string)
    ensures Stripped(Strip(s)) && (Strip(s) == "" <==> Blank(s))
  {
    StripLeftHead(s);
    if StripLeft(s) != "" { StripRightEnds(StripLeft(s)); }
  }

  /** The white space of `str.strip`, code point by code point. */
  lemma WhiteSpace(c: char)
    ensures IsSpace(c) <==> c as int in {9, 10, 11, 12, 13, 28, 29, 30, 31, 32, 133, 160, 5760,
                                         8192, 8193, 8194, 8195, 8196, 8197, 8198, 8199, 8200, 8201, 8202,
                                         8232, 8233, 8239, 8287, 12288}
  {
  }

  lemma {:induction false} StripLeftCuts(s: string)
    ensures exists a :: s == a + StripLeft(s) && Blank(a)
    decreases |s|
  {
    hide IsSpace;
    if s != "" && IsSpace(s[0]) {
      StripLeftCuts(s[1..]);
      var a :| s[1..] == a + StripLeft(s[1..]) && Blank(a);
      assert s == [s[0]] + a + StripLeft(s) && Blank([s[0]] + a);
    } else {
      assert s == "" + s && Blank("");
    }
  }

  lemma {:induction false} StripRightCuts(s: string)
    ensures exists b :: s == StripRight(s) + b && Blank(b)
    decreases |s|
  {
    hide IsSpace;
    if s != "" && IsSpace(s[|s| - 1]) {
      var front := s[..|s| - 1];
      StripRightCuts(front);
      var b :| front == StripRight(front) + b && Blank(b);
      assert s == StripRight(s) + (b + [s[|s| - 1]]) && Blank(b + [s[|s| - 1]]);
    } else {
      assert s == s + "" && Blank("");
    }
  }

  /** Stripping takes white space off both ends and leaves none there. */
  lemma StripExactly(s: string)
    ensures Stripped(Strip(s)) && exists a, b :: s == a + Strip(s) + b && Blank(a) && Blank(b)
  {
    StripStrips(s);
    StripLeftCuts(s);
    StripRightCuts(StripLeft(s));
    hide Blank, StripLeft, StripRight;
    var a :| s == a + StripLeft(s) && Blank(a);
    var b :| StripLeft(s) == Strip(s) + b && Blank(b);
    assert s == a + Strip(s) + b;
  }

  // ----- lines

  /** The characters `str.splitlines` breaks at. */
  predicate IsBreak(c: char) {
    c as int in {10, 11, 12, 13, 28, 29, 30, 0x85, 0x2028, 0x2029}
  }

  /** Every line break is white space; these white-space characters are no breaks. */
  lemma Breaks(c: char)
    ensures IsBreak(c) <==> IsSpace(c) && c !in "\t " && c as int != 31 && c as int != 160 && c as int != 5760
                            && !(8192 <= c as int <= 8202) && c as int !in {8239, 8287, 12288}
  {
  }

  predicate Unbroken(s: string) {
    forall i | 0 <= i < |s| :: !IsBreak(s[i])
  }

  /** Where the first line ends. */
  function LineEnd(s: string): (n: nat)
    ensures n <= |s| && Unbroken(s[..n]) && (n < |s| ==> IsBreak(s[n]))
  {
    if s == "" || IsBreak(s[0]) then 0 else
      var n := LineEnd(s[1..]);
      assert s[..n + 1] == [s[0]] + s[1..][..n];
      n + 1
  }

  /** Where the second line starts: `\r\n` is one break. */
  function NextLine(s: string, n: nat): (m: nat)
    requires n < |s|
    ensures n < m <= |s|
  {
    if s[n] == '\r' && n + 1 < |s| && s[n + 1] == '\n' then n + 2 else n + 1
  }

  function SplitLines(s: string): seq<string>
    decreases |s|
  {
    if s == "" then []
    else
      var n := LineEnd(s);
      if n == |s| then [s] else [s[..n]] + SplitLines(s[NextLine(s, n)..])
  }

  /** `"\n".join(lines)`. */
  function Join(lines: seq<string>): string {
    if lines == [] then ""
    else if |lines| == 1 then lines[0]
    else lines[0] + "\n" + Join(lines[1..])
  }

  /** Every line ended by a newline. */
  function Unlines(lines: seq<string>): string {
    if lines == [] then "" else lines[0] + "\n" + Unlines(lines[1..])
  }

  ghost predicate AllUnbroken(lines: seq<string>) {
    forall l | l in lines :: Unbroken(l)
  }

  lemma {:induction false} LineEndIs(l: string, c: char, rest: string)
    requires Unbroken(l) && IsBreak(c)
    ensures LineEnd(l + [c] + rest) == |l|
  {
    hide IsBreak;
    var s := l + [c] + rest;
    if l == "" {
      assert s[0] == c;
    } else {
      assert s[0] == l[0] && s[1..] == l[1..] + [c] + rest;
      LineEndIs(l[1..], c, rest);
    }
  }

  predicate StartsNewline(s: string) {
    s != "" && s[0] == '\n'
  }

  /** What follows a break: a carriage return takes a newline after it along. */
  function After(c: char, rest: string): string {
    if c == '\r' && StartsNewline(rest) then rest[1..] else rest
  }

  /** One line and its break come off the front. */
  lemma SplitStep(s: string, l: string, c: char, rest: string)
    requires s == l + [c] + rest && Unbroken(l) && IsBreak(c)
    ensures SplitLines(s) == [l] + SplitLines(After(c, rest))
  {
    hide IsBreak, LineEnd;
    LineEndIs(l, c, rest);
    assert s[..|l|] == l && s[|l|] == c && s[|l| + 1..] == rest;
    if c == '\r' && StartsNewline(rest) { assert s[|l| + 2..] == rest[1..]; }
  }

  /** A text with a break in it is a first line, its break and the rest. */
  lemma FirstBreak(s: string) returns (l: string, c: char, rest: string)
    requires !Unbroken(s)
    ensures s == l + [c] + rest && Unbroken(l) && IsBreak(c)
  {
    var n := LineEnd(s);
    assert s[..|s|] == s;
    hide IsBreak;
    l, c, rest := s[..n], s[n], s[n + 1..];
  }

  /** More text behind stays behind. */
  lemma MoreAfter(s: string, l: string, c: char, rest: string, y: string)
    requires s == l + [c] + rest && (rest != "" || c != '\r')
    ensures s + y == l + [c] + (rest + y) && After(c, rest + y) == After(c, rest) + y
  {
    if c == '\r' && StartsNewline(rest) { assert (rest + y)[1..] == rest[1..] + y; }
  }

  lemma SplitOne(l: string, rest: string)
    requires Unbroken(l)
    ensures SplitLines(l + "\n" + rest) == [l] + SplitLines(rest)
  {
    SplitStep(l + "\n" + rest, l, '\n', rest);
  }

  lemma {:induction false} SplitUnlines(lines: seq<string>)
    requires AllUnbroken(lines)
    ensures SplitLines(Unlines(lines)) == lines
  {
    if lines != [] {
      SplitOne(lines[0], Unlines(lines[1..]));
      SplitUnlines(lines[1..]);
    }
  }

  lemma {:induction false} UnlinesJoin(lines: seq<string>)
    requires lines != []
    ensures Join(lines) + "\n" == Unlines(lines)
  {
    if |lines| == 1 {
      assert Unlines(lines[1..]) == "";
    } else {
      UnlinesJoin(lines[1..]);
      assert Join(lines) + "\n" == lines[0] + "\n" + (Join(lines[1..]) + "\n");
    }
  }

  predicate Terminated(s: string) {
    s != "" && s[|s| - 1] == '\n'
  }

  lemma LastAfter(s: string, l: string, c: char, rest: string)
    requires s == l + [c] + rest && IsBreak(c)
    ensures |After(c, rest)| < |s|
    ensures After(c, rest) == "" ==> IsBreak(s[|s| - 1])
    ensures After(c, rest) != "" ==> After(c, rest)[|After(c, rest)| - 1] == s[|s| - 1]
    ensures rest == "" ==> s[|s| - 1] == c
  {
  }

  /** A terminated text gives up the same first line whether or not more text is behind it. */
  lemma SameFirstLine(t: string, y: string) returns (l: string, more: string)
    requires Terminated(t)
    ensures SplitLines(t) == [l] + SplitLines(more) && SplitLines(t + y) == [l] + SplitLines(more + y)
    ensures |more| < |t| && (more == "" || Terminated(more))
  {
    assert !Unbroken(t) by { assert IsBreak(t[|t| - 1]); }
    var c, rest;
    l, c, rest := FirstBreak(t);
    more := After(c, rest);
    LastAfter(t, l, c, rest);
    hide IsBreak, Unbroken, SplitLines, After;
    SplitStep(t, l, c, rest);
    MoreAfter(t, l, c, rest, y);
    SplitStep(t + y, l, c, rest + y);
  }

  /** After a newline the lines start afresh. */
  lemma {:induction false} SplitAfterNewline(t: string, y: string)
    requires Terminated(t)
    ensures SplitLines(t + y) == SplitLines(t) + SplitLines(y)
    decreases |t|
  {
    hide SplitLines, Terminated;
    var l, more := SameFirstLine(t, y);
    if more == "" {
      assert more + y == y && SplitLines(more) == [] by { SplitNothing(); }
    } else {
      SplitAfterNewline(more, y);
    }
    FrontLine(l, SplitLines(more), SplitLines(y));
  }

  lemma FrontLine(l: string, a: seq<string>, b: seq<string>)
    ensures [l] + (a + b) == ([l] + a) + b
  {
  }

  /** The lines of a text hold no line breaks. */
  lemma {:induction false} SplitUnbroken(s: string)
    ensures AllUnbroken(SplitLines(s))
    decreases |s|
  {
    if s != "" {
      var n := LineEnd(s);
      if n < |s| { SplitUnbroken(s[NextLine(s, n)..]); } else { assert s[..n] == s; }
    }
  }

  /** The only breaks in a text are newlines. */
  predicate OnlyNewlines(s: string) {
    forall i | 0 <= i < |s| && IsBreak(s[i]) :: s[i] == '\n'
  }

  lemma {:induction false} JoinOnlyNewlines(lines: seq<string>)
    requires AllUnbroken(lines)
    ensures OnlyNewlines(Join(lines))
  {
    if lines != [] {
      assert lines[0] in lines;
      if |lines| > 1 { JoinOnlyNewlines(lines[1..]); }
    }
  }

  lemma {:induction false} JoinOfSplit(s: string)
    requires OnlyNewlines(s) && (s != "" ==> !IsBreak(s[|s| - 1]))
    ensures Join(SplitLines(s)) == s
    decreases |s|
  {
    if Unbroken(s) {
      WholeLine(s);
    } else {
      var l, c, rest := FirstBreak(s);
      assert s[|l|] == c && c == '\n';
      LastAfter(s, l, c, rest);
      assert forall i | 0 <= i < |rest| :: rest[i] == s[|l| + 1 + i];
      hide IsBreak, Unbroken;
      JoinOfSplit(rest);
      SplitStep(s, l, c, rest);
    }
  }

  /** Splitting a text into lines and joining them again gives it back exactly when all its breaks are newlines. */
  lemma JoinSplitExactly(s: string)
    requires s != "" ==> !IsBreak(s[|s| - 1])
    ensures Join(SplitLines(s)) == s <==> OnlyNewlines(s)
  {
    if OnlyNewlines(s) {
      JoinOfSplit(s);
    } else {
      SplitUnbroken(s);
      JoinOnlyNewlines(SplitLines(s));
    }
  }

  lemma SpaceBreaks(c: char)
    requires IsBreak(c)
    ensures IsSpace(c)
  {
  }

  /** The text ends in a break that a newline after it does not join. */
  predicate EndsInOtherBreak(s: string) {
    s != "" && IsBreak(s[|s| - 1]) && s[|s| - 1] != '\r'
  }

  /** What ending a text with a newline does to its lines: nothing, unless the text is empty or ends in a break of another kind. */
  lemma {:induction false} SplitTerminated(t: string)
    requires !Terminated(t)
    ensures SplitLines(t + "\n") == SplitLines(t) + if t == "" || EndsInOtherBreak(t) then [""] else []
    decreases |t|
  {
    if Unbroken(t) {
      SplitOne(t, "");
      assert t + "\n" + "" == t + "\n";
      WholeLine(t);
    } else {
      hide SplitLines, Unbroken, Terminated, EndsInOtherBreak;
      var lone, l, more := FirstLineEnded(t);
      if !lone {
        if more == "" { SplitNothing(); } else { SplitTerminated(more); }
        FrontLine(l, SplitLines(more), if more == "" || EndsInOtherBreak(more) then [""] else []);
      }
    }
  }

  /** The first line of an unterminated text is not changed by a newline behind it; a lone carriage return takes it in. */
  lemma FirstLineEnded(t: string) returns (lone: bool, l: string, more: string)
    requires !Terminated(t) && !Unbroken(t)
    ensures t != ""
    ensures lone ==> SplitLines(t + "\n") == SplitLines(t) + [] && !EndsInOtherBreak(t)
    ensures !lone ==> SplitLines(t) == [l] + SplitLines(more) && SplitLines(t + "\n") == [l] + SplitLines(more + "\n")
    ensures !lone ==> |more| < |t| && !Terminated(more)
                      && EndsInOtherBreak(t) == (more == "" || EndsInOtherBreak(more))
  {
    var c, rest;
    l, c, rest := FirstBreak(t);
    lone, more := c == '\r' && rest == "", After(c, rest);
    if lone {
      LoneReturn(t, l);
    } else {
      EndAfter(t, l, c, rest);
      LastAfter(t, l, c, rest);
      hide SplitLines, Unbroken, IsBreak, After, EndsInOtherBreak;
      SplitStep(t, l, c, rest);
      MoreAfter(t, l, c, rest, "\n");
      SplitStep(t + "\n", l, c, rest + "\n");
    }
  }

  lemma LoneReturn(t: string, l: string)
    requires t == l + ['\r'] + "" && Unbroken(l)
    ensures SplitLines(t) == SplitLines(t + "\n") == [l] && !EndsInOtherBreak(t)
  {
    SplitStep(t, l, '\r', "");
    SplitStep(t + "\n", l, '\r', "\n");
    SplitNothing();
  }

  lemma EndAfter(t: string, l: string, c: char, rest: string)
    requires t == l + [c] + rest && IsBreak(c) && !Terminated(t) && (rest != "" || c != '\r')
    ensures EndsInOtherBreak(t) == (After(c, rest) == "" || EndsInOtherBreak(After(c, rest)))
  {
    LastAfter(t, l, c, rest);
    assert rest != "" ==> t[|t| - 1] == rest[|rest| - 1];
  }

  lemma WholeLine(t: string)
    requires Unbroken(t)
    ensures SplitLines(t) == if t == "" then [] else [t]
    ensures !EndsInOtherBreak(t)
  {
    hide IsBreak;
  }

  lemma SplitNothing()
    ensures SplitLines("") == [] && SplitLines("\n") == [""]
  {
    SplitOne("", "");
    assert "" + "\n" + "" == "\n";
  }

  /** A text that does not start with a break starts its first line. */
  lemma FirstLineStarts(s: string)
    requires s != "" && !IsBreak(s[0])
    ensures SplitLines(s) != [] && SplitLines(s)[0] != "" && SplitLines(s)[0][0] == s[0]
  {
    if Unbroken(s) {
      WholeLine(s);
    } else {
      var l, c, rest := FirstBreak(s);
      assert s[|l|] == c && (l != "" ==> l[0] == s[0]);
      hide IsBreak, Unbroken, SplitLines;
      SplitStep(s, l, c, rest);
    }
  }

  /** A text that does not end with a break ends its last line. */
  lemma {:induction false} LastLineEnds(s: string)
    requires s != "" && !IsBreak(s[|s| - 1])
    ensures SplitLines(s) != []
    ensures var last := SplitLines(s)[|SplitLines(s)| - 1]; last != "" && last[|last| - 1] == s[|s| - 1]
    decreases |s|
  {
    if Unbroken(s) {
      WholeLine(s);
    } else {
      var l, c, rest := FirstBreak(s);
      LastAfter(s, l, c, rest);
      hide IsBreak, Unbroken, SplitLines, After;
      SplitStep(s, l, c, rest);
      LastLineEnds(After(c, rest));
      var more := SplitLines(After(c, rest));
      assert ([l] + more)[|more|] == more[|more| - 1];
    }
  }

  lemma {:induction false} JoinEnds(lines: seq<string>)
    requires lines != []
    ensures lines[0] != "" ==> Join(lines) != "" && Join(lines)[0] == lines[0][0]
    ensures var last := lines[|lines| - 1]; last != "" ==> Join(lines) != "" && Join(lines)[|Join(lines)| - 1] == last[|last| - 1]
  {
    if |lines| > 1 { JoinEnds(lines[1..]); }
  }
}
