/**
 Which documented member owns each source line: members claim line ranges, and a line goes to
 the narrowest claim made on it, the earliest of equally narrow ones.
 */
module LineClaims {
  import opened Wrappers

  /** A claim of the lines `lo..hi` (`hi` excluded) of one file by a member. */
  datatype Claim = Claim(path: string, lo: int, hi: int, owner: string)

  datatype Line = Line(path: string, number: int)

  /** The width a line was claimed with, and the owner. */
  datatype Held = Held(width: nat, owner: string)

  type Claimed = map<Line, Held>

  function Width(c: Claim): nat {
    if c.hi > c.lo then c.hi - c.lo else 0
  }

  predicate Covers(c: Claim, l: Line) {
    c.path == l.path && c.lo <= l.number < c.hi
  }

  /** What one claim does to one line. */
  function Repaint(before: Option<Held>, c: Claim, l: Line): Option<Held> {
    if Covers(c, l) && (before.None? || Width(c) < before.value.width) then Some(Held(Width(c), c.owner)) else before
  }

  /** What a line holds after the claims, in order. */
  function HolderOf(claims: seq<Claim>, l: Line): Option<Held> {
    if claims == [] then None
    else
      var n := |claims| - 1;
      Repaint(HolderOf(claims[..n], l), claims[n], l)
  }

  function Lookup(claimed: Claimed, l: Line): Option<Held> {
    if l in claimed then Some(claimed[l]) else None
  }

  /** A documented object: its span if it has one, and the place and length of its docstring. */
  datatype Member = Member(path: string, docLines: nat, span: Option<(int, int)>, docLine: Option<int>)

  /** The claims `record` makes for a member: the whole span, then the docstring. */
  function ClaimsOf(name: string, m: Member): seq<Claim> {
    (match m.span
     case Some((first, last)) => [Claim(m.path, first, last + 1, name)]
     case None => [])
    +
    (match m.docLine
     case Some(line) => [Claim(m.path, line, line + m.docLines, name)]
     case None => [])
  }

  class Population {
    var claimed: Claimed
    var seen: set<string>
    ghost var claims: seq<Claim>    // every claim made, in order

    ghost predicate Valid()
      reads this
    {
      forall l :: Lookup(claimed, l) == HolderOf(claims, l)
    }

    constructor ()
      ensures Valid() && claims == [] && seen == {}
    {
      claimed, seen, claims := map[], {}, [];
    }

    /** Assign each line of the range to this claim when it is the narrowest on that line so far. */
    method MakeClaim(c: Claim)
      requires Valid()
      modifies this
      ensures Valid() && claims == old(claims) + [c] && seen == old(seen)
    {
      var width := Width(c);
      var line := c.lo;
      while line < c.hi
        invariant c.lo <= line && (c.lo <= c.hi ==> line <= c.hi)
        invariant claims == old(claims) && seen == old(seen)
        invariant forall l :: Lookup(claimed, l)
                    == if c.path == l.path && c.lo <= l.number < line then Repaint(HolderOf(claims, l), c, l) else HolderOf(claims, l)
      {
        var l := Line(c.path, line);
        if l !in claimed || width < claimed[l].width {
          claimed := claimed[l := Held(width, c.owner)];
        }
        line := line + 1;
      }
      claims := claims + [c];
      assert claims[..|claims| - 1] == old(claims);
    }

    /** A member with a docstring, met for the first time, claims its span and then its docstring. */
    method Record(name: string, m: Member, documented: bool) returns (counted: bool)
      requires Valid()
      modifies this
      ensures Valid()
      ensures counted == (documented && name !in old(seen))
      ensures claims == old(claims) + if counted then ClaimsOf(name, m) else []
      ensures seen == old(seen) + if counted then {name} else {}
    {
      if !documented || name in seen {
        return false;
      }
      seen := seen + {name};
      if m.span.Some? {
        MakeClaim(Claim(m.path, m.span.value.0, m.span.value.1 + 1, name));
      }
      if m.docLine.Some? {
        MakeClaim(Claim(m.path, m.docLine.value, m.docLine.value + m.docLines, name));
      }
      return true;
    }
  }

  // ----- who holds a line

  /** Claim `i` is the earliest of the narrowest claims on the line. */
  ghost predicate Wins(claims: seq<Claim>, l: Line, i: nat) {
    && i < |claims| && Covers(claims[i], l)
    && forall j | 0 <= j < |claims| && Covers(claims[j], l) ::
         Width(claims[i]) < Width(claims[j]) || (Width(claims[i]) == Width(claims[j]) && i <= j)
  }

  /** A claim that is not narrower leaves the winner where it is. */
  lemma StaysWinner(front: seq<Claim>, c: Claim, l: Line, i: nat)
    requires Wins(front, l, i) && !(Covers(c, l) && Width(c) < Width(front[i]))
    ensures Wins(front + [c], l, i)
  {
    hide Covers, Width;
  }

  /** A claim narrower than the winner, or the first on its line, wins. */
  lemma BecomesWinner(front: seq<Claim>, c: Claim, l: Line)
    requires Covers(c, l)
    requires (forall j | 0 <= j < |front| :: !Covers(front[j], l)) || exists i: nat :: Wins(front, l, i) && Width(c) < Width(front[i])
    ensures Wins(front + [c], l, |front|)
  {
    hide Covers, Width;
  }

  /** The painted lines are exactly the union of the ranges, and each holds its earliest narrowest claim. */
  lemma {:induction false} NarrowestHolds(claims: seq<Claim>, l: Line)
    ensures HolderOf(claims, l).Some? <==> exists i | 0 <= i < |claims| :: Covers(claims[i], l)
    ensures HolderOf(claims, l).Some? ==>
              exists i: nat :: Wins(claims, l, i) && HolderOf(claims, l).value == Held(Width(claims[i]), claims[i].owner)
  {
    hide Covers, Width;
    if claims != [] {
      var n := |claims| - 1;
      var front, c := claims[..n], claims[n];
      assert claims == front + [c];
      NarrowestHolds(front, l);
      hide Wins;
      if HolderOf(front, l).Some? {
        var i: nat :| Wins(front, l, i) && HolderOf(front, l).value == Held(Width(front[i]), front[i].owner);
        if Covers(c, l) && Width(c) < Width(front[i]) {
          BecomesWinner(front, c, l);
        } else {
          StaysWinner(front, c, l, i);
        }
      } else if Covers(c, l) {
        BecomesWinner(front, c, l);
      }
    }
  }

  /** A claim of this line by the bounds of its range. */
  ghost predicate Claims(c: Claim, l: Line) {
    c.path == l.path && c.lo <= l.number && l.number < c.hi
  }

  /** The holder of a line, read off the claims' bounds: a claim of the line, no later than any as short and shorter than all others, with its length. */
  lemma HolderExactly(claims: seq<Claim>, l: Line, width: nat, owner: string)
    ensures HolderOf(claims, l) == Some(Held(width, owner))
       <==> exists i: nat ::
              && i < |claims| && Claims(claims[i], l) && claims[i].owner == owner && width == claims[i].hi - claims[i].lo
              && forall j | 0 <= j < |claims| && Claims(claims[j], l) ::
                   claims[i].hi - claims[i].lo < claims[j].hi - claims[j].lo
                   || (claims[i].hi - claims[i].lo == claims[j].hi - claims[j].lo && i <= j)
    ensures HolderOf(claims, l) == None <==> forall j | 0 <= j < |claims| :: !Claims(claims[j], l)
  {
    assert forall j | 0 <= j < |claims| :: Claims(claims[j], l) <==> Covers(claims[j], l);
    assert forall j | 0 <= j < |claims| && Claims(claims[j], l) :: Width(claims[j]) == claims[j].hi - claims[j].lo;
    NarrowestHolds(claims, l);
    hide HolderOf, Width, Covers, Claims;
    if HolderOf(claims, l).Some? {
      var i: nat :| Wins(claims, l, i) && HolderOf(claims, l).value == Held(Width(claims[i]), claims[i].owner);
      assert Claims(claims[i], l);
    }
    if i: nat :| i < |claims| && Wins(claims, l, i) && claims[i].owner == owner && width == Width(claims[i]) {
      HolderIsWinner(claims, l, i);
    }
  }

  /** What one member claims: the lines of its span, the last included, and the lines of its docstring. */
  lemma MemberLines(name: string, m: Member, l: Line)
    ensures (exists c :: c in ClaimsOf(name, m) && Claims(c, l))
       <==> m.path == l.path
            && ((m.span.Some? && m.span.value.0 <= l.number <= m.span.value.1)
                || (m.docLine.Some? && m.docLine.value <= l.number < m.docLine.value + m.docLines))
    ensures forall c | c in ClaimsOf(name, m) :: c.owner == name
    ensures m.span.Some? && m.span.value.0 <= m.span.value.1 ==>
              ClaimsOf(name, m) != [] && ClaimsOf(name, m)[0].hi - ClaimsOf(name, m)[0].lo == m.span.value.1 - m.span.value.0 + 1
  {
    var claims := ClaimsOf(name, m);
    var span := if m.span.Some? then [Claim(m.path, m.span.value.0, m.span.value.1 + 1, name)] else [];
    var doc := if m.docLine.Some? then [Claim(m.path, m.docLine.value, m.docLine.value + m.docLines, name)] else [];
    assert claims == span + doc;
    assert forall c :: c in claims <==> (span != [] && c == span[0]) || (doc != [] && c == doc[0]);
    assert (exists c :: c in claims && Claims(c, l)) <==> (span != [] && Claims(span[0], l)) || (doc != [] && Claims(doc[0], l));
  }

  lemma WinnerUnique(claims: seq<Claim>, l: Line, i: nat, j: nat)
    requires Wins(claims, l, i) && Wins(claims, l, j)
    ensures i == j
  {
  }

  /** The holder of a line is its winning claim, whichever index is given for it: there is only one. */
  lemma HolderIsWinner(claims: seq<Claim>, l: Line, i: nat)
    requires Wins(claims, l, i)
    ensures HolderOf(claims, l) == Some(Held(Width(claims[i]), claims[i].owner))
  {
    NarrowestHolds(claims, l);
    hide HolderOf, Width, Covers;
    var j: nat :| Wins(claims, l, j) && HolderOf(claims, l).value == Held(Width(claims[j]), claims[j].owner);
    WinnerUnique(claims, l, i, j);
  }

  /** On this line no two claims are equally wide, so there is nothing for the order to decide. */
  ghost predicate NoTies(claims: seq<Claim>, l: Line) {
    forall i, j | 0 <= i < |claims| && 0 <= j < |claims| && Covers(claims[i], l) && Covers(claims[j], l)
                  && Width(claims[i]) == Width(claims[j]) :: claims[i].owner == claims[j].owner
  }

  /** Without ties the members may be visited in any order. */
  lemma OrderDoesNotMatter(a: seq<Claim>, b: seq<Claim>, l: Line)
    requires (forall c :: c in a <==> c in b) && NoTies(a, l)
    ensures HolderOf(a, l) == HolderOf(b, l)
  {
    NarrowestHolds(a, l);
    NarrowestHolds(b, l);
    if i :| 0 <= i < |a| && Covers(a[i], l) { var j := IndexOf(b, a[i]); }
    if j :| 0 <= j < |b| && Covers(b[j], l) { var i := IndexOf(a, b[j]); }
    if HolderOf(a, l).Some? {
      var i: nat :| Wins(a, l, i) && HolderOf(a, l).value == Held(Width(a[i]), a[i].owner);
      var j: nat :| Wins(b, l, j) && HolderOf(b, l).value == Held(Width(b[j]), b[j].owner);
      var i' := IndexOf(a, b[j]);
      var j' := IndexOf(b, a[i]);
      assert Width(a[i]) <= Width(a[i']) && Width(b[j]) <= Width(b[j']);
    }
  }

  lemma IndexOf(s: seq<Claim>, c: Claim) returns (i: nat)
    requires c in s
    ensures i < |s| && s[i] == c
  {
    i :| 0 <= i < |s| && s[i] == c;
  }

  /** `inner` lies inside `outer` and is not all of it. */
  predicate StrictlyInside(inner: Claim, outer: Claim) {
    inner.path == outer.path && outer.lo <= inner.lo && inner.hi <= outer.hi && Width(inner) < Width(outer)
  }

  /** Two claims by different members never cross: they are disjoint or one is strictly inside the other. */
  ghost predicate Nested(claims: seq<Claim>) {
    forall c, d | c in claims && d in claims && c.owner != d.owner ::
      (forall l :: !(Covers(c, l) && Covers(d, l))) || StrictlyInside(c, d) || StrictlyInside(d, c)
  }

  /** Of two claims on one line by different members the wider is around the narrower, so they are never equally wide. */
  lemma SharedLineNests(claims: seq<Claim>, l: Line, c: Claim, d: Claim)
    requires Nested(claims) && c in claims && d in claims && c.owner != d.owner
    requires Covers(c, l) && Covers(d, l)
    ensures StrictlyInside(c, d) || StrictlyInside(d, c)
  {
    hide StrictlyInside, Width;
  }

  /** With nested members a line belongs to the innermost one: whoever else claims the line does so around the owner's claim. */
  lemma InnermostHolds(claims: seq<Claim>, l: Line)
    requires Nested(claims) && HolderOf(claims, l).Some?
    ensures exists i: nat :: Wins(claims, l, i) && claims[i].owner == HolderOf(claims, l).value.owner
              && forall d | d in claims && Covers(d, l) && d.owner != claims[i].owner :: StrictlyInside(claims[i], d)
  {
    NarrowestHolds(claims, l);
    var i: nat :| Wins(claims, l, i) && HolderOf(claims, l).value == Held(Width(claims[i]), claims[i].owner);
    forall d | d in claims && Covers(d, l) && d.owner != claims[i].owner ensures StrictlyInside(claims[i], d) {
      hide Nested, HolderOf, Covers;
      var j := IndexOf(claims, d);
      SharedLineNests(claims, l, claims[i], d);
    }
  }

  /** Nested members never tie, so `OrderDoesNotMatter` holds of them. */
  lemma NestedHasNoTies(claims: seq<Claim>, l: Line)
    requires Nested(claims)
    ensures NoTies(claims, l)
  {
    forall j, k | 0 <= j < |claims| && 0 <= k < |claims| && Covers(claims[j], l) && Covers(claims[k], l)
                  && Width(claims[j]) == Width(claims[k])
      ensures claims[j].owner == claims[k].owner
    {
      hide Nested, Covers;
      if claims[j].owner != claims[k].owner { SharedLineNests(claims, l, claims[j], claims[k]); }
    }
  }

  /**
   A method keeps its own body. On a line inside both a class's span and a method's, the class
   never wins, however narrow its docstring is elsewhere: widths are compared per line.
   */
  lemma MethodKeepsItsBody(claims: seq<Claim>, l: Line, method_: Claim, owner: string)
    requires method_ in claims && Covers(method_, l) && method_.owner != owner
    requires forall c | c in claims && c.owner == owner && Covers(c, l) :: Width(method_) < Width(c)
    ensures HolderOf(claims, l).Some? && HolderOf(claims, l).value.owner != owner
  {
    NarrowestHolds(claims, l);
    var j := IndexOf(claims, method_);
    assert Covers(claims[j], l);
    var i: nat :| Wins(claims, l, i) && HolderOf(claims, l).value == Held(Width(claims[i]), claims[i].owner);
    assert claims[i] in claims;
  }
}
