/** First occurrences of a word in a text: Python's `in`, `split(word, 1)` and `split(word)[0]`. */
module Text {
  import opened Wrappers

  /** The text before and after the first occurrence of `w`. */
  function Cut(t: string, w: string): (r: Option<(string, string)>)
    ensures r.Some? ==> t == r.value.0 + w + r.value.1
  {
    if w <= t then Some(("", t[|w|..]))
    else if t == "" then None
    else
      match Cut(t[1..], w)
      case Some((a, b)) =>
        assert t == [t[0]] + t[1..];
        Some(([t[0]] + a, b))
      case None => None
  }

  predicate Contains(t: string, w: string) {
    Cut(t, w).Some?
  }

  predicate EndsWith(t: string, w: string) {
    |w| <= |t| && t[|t| - |w|..] == w
  }

  /** The first character of the word occurs nowhere else in it, so no two occurrences overlap. */
  predicate HeadUnique(w: string) {
    w != "" && w[0] !in w[1..]
  }

  lemma EndsWithExactly(t: string, w: string)
    ensures EndsWith(t, w) <==> exists a :: t == a + w
  {
    if EndsWith(t, w) { assert t == t[..|t| - |w|] + w; }
  }

  /** A cut is made at the earliest place there is. */
  lemma {:induction false} CutIsFirst(t: string, w: string, a: string, b: string)
    requires t == a + w + b
    ensures Cut(t, w).Some? && |Cut(t, w).value.0| <= |a|
    decreases |a|
  {
    if a == "" {
      assert t == w + b;
    } else {
      assert t[1..] == a[1..] + w + b;
      CutIsFirst(t[1..], w, a[1..], b);
    }
  }

  /** `Contains` is what it says. */
  lemma {:induction false} ContainsMeaning(t: string, w: string)
    ensures Contains(t, w) <==> exists a, b :: t == a + w + b
    decreases |t|
  {
    if exists a, b :: t == a + w + b {
      var a, b :| t == a + w + b;
      Occurs(a, w, b);
    }
    if Contains(t, w) {
      var (a, b) := Cut(t, w).value;
      assert t == a + w + b;
    }
  }

  lemma {:induction false} Occurs(a: string, w: string, b: string)
    ensures Contains(a + w + b, w)
    decreases |a|
  {
    var t := a + w + b;
    if a == "" {
      assert t == w + b;
    } else {
      assert t[1..] == a[1..] + w + b;
      Occurs(a[1..], w, b);
    }
  }

  /** An occurrence of a head-unique word at the start of `a + w + b` lies inside `a`, or `a` is empty. */
  lemma NoStraddle(a: string, w: string, b: string)
    requires HeadUnique(w) && a != "" && w <= a + w + b
    ensures w <= a
  {
    var t := a + w + b;
    forall i | 0 < i < |w| ensures w[i] != w[0] { assert w[i] == w[1..][i - 1]; }
    assert t[|a|] == w[0] && forall i | 0 <= i < |w| :: t[i] == w[i];
    assert |w| <= |a|;
    assert w == t[..|w|] == a[..|w|];
  }

  /** Text without the word, then the word: the first occurrence is just there. */
  lemma {:induction false} CutAt(a: string, w: string, b: string)
    requires HeadUnique(w) && !Contains(a, w)
    ensures Cut(a + w + b, w) == Some((a, b))
    decreases |a|
  {
    var t := a + w + b;
    if a == "" {
      assert t == w + b;
    } else {
      if w <= t { NoStraddle(a, w, b); }
      assert t[1..] == a[1..] + w + b;
      CutAt(a[1..], w, b);
      assert a == [a[0]] + a[1..];
    }
  }

  /** Text that holds the word: appending to it does not move the first occurrence. */
  lemma {:induction false} CutInFront(a: string, w: string, x: string)
    requires Contains(a, w)
    ensures Cut(a + x, w) == Some((Cut(a, w).value.0, Cut(a, w).value.1 + x))
    decreases |a|
  {
    var t := a + x;
    if w <= a {
      assert w <= t;
      assert t[|w|..] == a[|w|..] + x;
    } else {
      var (p, q) := Cut(a[1..], w).value;
      assert |a| >= 1 + |w| && t[..|w|] == a[..|w|];
      assert t[1..] == a[1..] + x;
      CutInFront(a[1..], w, x);
    }
  }

  /** What stands before the first occurrence does not hold the word. */
  lemma CutHeadLacks(t: string, w: string)
    requires w != "" && Contains(t, w)
    ensures !Contains(Cut(t, w).value.0, w)
  {
    var (a, b) := Cut(t, w).value;
    if Contains(a, w) {
      assert t == a + (w + b);
      hide Cut;
      CutInFront(a, w, w + b);
    }
  }

  /** A text that lacks a character lacks every word with it. */
  lemma LacksChar(t: string, w: string, c: char)
    requires c in w && c !in t
    ensures !Contains(t, w)
  {
    if a, b :| t == a + w + b {
      InMiddle(a, w, b, c);
      assert false;
    }
    ContainsMeaning(t, w);
  }

  lemma InMiddle(a: string, w: string, b: string, c: char)
    requires c in w
    ensures c in a + w + b
  {
  }
}
