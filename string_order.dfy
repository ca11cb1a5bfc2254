/** Python's ordering of `str` values (lexicographic by code point) and
    `sorted(set(xs))` over a sequence of strings.  Both the input check of
    createImage.py and the group loop of convertArchive.py iterate in this
    order. */
module StringOrder {

  /** `a < b` on Python strings: a proper prefix comes first, otherwise the
      first differing character decides. */
  predicate Below(a: string, b: string)
    decreases |a|
  {
    |b| > 0 && (|a| == 0 || a[0] < b[0] || (a[0] == b[0] && Below(a[1..], b[1..])))
  }

  lemma {:induction false} BelowIrreflexive(a: string)
    ensures !Below(a, a)
    decreases |a|
  {
    if |a| > 0 { BelowIrreflexive(a[1..]); }
  }

  lemma {:induction false} BelowTransitive(a: string, b: string, c: string)
    requires Below(a, b) && Below(b, c)
    ensures Below(a, c)
    decreases |a|
  {
    if |a| > 0 && a[0] == b[0] && b[0] == c[0] {
      BelowTransitive(a[1..], b[1..], c[1..]);
    }
  }

  /** Any two different strings are ordered one way or the other. */
  lemma {:induction false} BelowTotal(a: string, b: string)
    requires a != b
    ensures Below(a, b) || Below(b, a)
    decreases |a|
  {
    if |a| > 0 && |b| > 0 && a[0] == b[0] {
      assert a == [a[0]] + a[1..] && b == [b[0]] + b[1..];
      BelowTotal(a[1..], b[1..]);
    }
  }

  /** No two strings are each below the other. */
  lemma BelowAsymmetric(a: string, b: string)
    ensures !(Below(a, b) && Below(b, a))
  {
    if Below(a, b) && Below(b, a) {
      BelowTransitive(a, b, a);
      BelowIrreflexive(a);
    }
  }

  /** Strictly increasing, hence also free of duplicates. */
  predicate StrictlySorted(r: seq<string>)
  {
    forall i, j :: 0 <= i < j < |r| ==> Below(r[i], r[j])
  }

  /** Adds `x` to a strictly sorted sequence unless it is already there. */
  function Insert(r: seq<string>, x: string): (s: seq<string>)
    requires StrictlySorted(r)
    ensures StrictlySorted(s)
    ensures forall y :: y in s <==> y in r || y == x
  {
    if r == [] then [x]
    else if x == r[0] then r
    else if Below(x, r[0]) then
      assert forall j :: 0 < j < |r| ==> Below(x, r[j]) by {
        forall j | 0 < j < |r| ensures Below(x, r[j]) { BelowTransitive(x, r[0], r[j]); }
      }
      [x] + r
    else
      BelowTotal(x, r[0]);
      var t := Insert(r[1..], x);
      assert forall y :: y in t ==> Below(r[0], y);
      [r[0]] + t
  }

  /** `sorted(set(xs))`: the distinct elements of `xs` in increasing order. */
  function SortedSet(xs: seq<string>): (r: seq<string>)
    ensures StrictlySorted(r)
    ensures forall y :: y in r <==> y in xs
  {
    if xs == [] then []
    else
      var r := Insert(SortedSet(xs[..|xs| - 1]), xs[|xs| - 1]);
      assert xs == xs[..|xs| - 1] + [xs[|xs| - 1]];
      r
  }

  /** The head of a strictly sorted sequence is its least element. */
  lemma HeadIsLeast(r: seq<string>, y: string)
    requires StrictlySorted(r) && y in r
    ensures y == r[0] || Below(r[0], y)
  {
    var k :| 0 <= k < |r| && r[k] == y;
  }

  /** A strictly sorted sequence is determined by its elements, so
      `SortedSet(xs)` is the one increasing listing of the set of `xs`. */
  lemma {:induction false} SortedUnique(r: seq<string>, s: seq<string>)
    requires StrictlySorted(r) && StrictlySorted(s)
    requires forall y :: y in r <==> y in s
    ensures r == s
    decreases |r|
  {
    if r != [] { assert r[0] in s; }
    if s != [] { assert s[0] in r; }
    if r != [] {
      HeadIsLeast(s, r[0]);
      HeadIsLeast(r, s[0]);
      BelowAsymmetric(r[0], s[0]);
      BelowIrreflexive(r[0]);
      forall y ensures y in r[1..] <==> y in s[1..] {
        if y in r[1..] {
          var k :| 0 <= k < |r[1..]| && r[1..][k] == y;
          assert r[k + 1] == y && Below(r[0], y);
          assert y in s;
        }
        if y in s[1..] {
          var k :| 0 <= k < |s[1..]| && s[1..][k] == y;
          assert s[k + 1] == y && Below(s[0], y);
          assert y in r;
        }
      }
      SortedUnique(r[1..], s[1..]);
    }
  }
}
