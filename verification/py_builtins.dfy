/**
 * The two pieces of Python's built-in behaviour that the label encoder leans on:
 * the ordering of `str` values (`a < b`), and `sorted(set(xs))` over a list of
 * strings, which yields the distinct elements of `xs` in ascending order.
 */
module PyBuiltins {

  /** Python's `a < b` on `str`: lexicographic by code point, a proper prefix first. */
  predicate Less(a: string, b: string)
    decreases |a|
  {
    if a == [] then b != []
    else if b == [] then false
    else if a[0] != b[0] then a[0] < b[0]
    else Less(a[1..], b[1..])
  }

  /** `a` is a proper prefix of `b`. */
  ghost predicate ProperPrefix(a: string, b: string) {
    |a| < |b| && a == b[..|a|]
  }

  /** At the first position where `a` and `b` differ, `a` has the smaller code point. */
  ghost predicate FirstDifferenceLess(a: string, b: string) {
    exists k :: 0 <= k < |a| && k < |b| && a[..k] == b[..k] && a[k] < b[k]
  }

  /** The textbook statement of lexicographic order, used as an independent reference for Less. */
  ghost predicate LexLess(a: string, b: string) {
    ProperPrefix(a, b) || FirstDifferenceLess(a, b)
  }

  lemma {:induction false} LessIsLexLess(a: string, b: string)
    ensures Less(a, b) <==> LexLess(a, b)
    decreases |a|
  {
    if a != [] && b != [] {
      if a[0] != b[0] {
        LexLessHeadsDiffer(a, b);
      } else {
        LessIsLexLess(a[1..], b[1..]);
        ProperPrefixHeadsEqual(a, b);
        FirstDifferenceHeadsEqual(a, b);
      }
    }
  }

  lemma LexLessHeadsDiffer(a: string, b: string)
    requires a != [] && b != [] && a[0] != b[0]
    ensures LexLess(a, b) <==> a[0] < b[0]
  {
    if a[0] < b[0] {
      assert a[..0] == b[..0];
    }
    if FirstDifferenceLess(a, b) {
      var k :| 0 <= k < |a| && k < |b| && a[..k] == b[..k] && a[k] < b[k];
    }
  }

  lemma ProperPrefixHeadsEqual(a: string, b: string)
    requires a != [] && b != [] && a[0] == b[0]
    ensures ProperPrefix(a, b) <==> ProperPrefix(a[1..], b[1..])
  {
    if |a| < |b| {
      assert b[..|a|] == [b[0]] + b[1..][..|a| - 1];
      assert a == [a[0]] + a[1..];
    }
  }

  lemma FirstDifferenceHeadsEqual(a: string, b: string)
    requires a != [] && b != [] && a[0] == b[0]
    ensures FirstDifferenceLess(a, b) <==> FirstDifferenceLess(a[1..], b[1..])
  {
    var a', b' := a[1..], b[1..];
    if FirstDifferenceLess(a', b') {
      var k :| 0 <= k < |a'| && k < |b'| && a'[..k] == b'[..k] && a'[k] < b'[k];
      assert a[..k + 1] == [a[0]] + a'[..k] && b[..k + 1] == [b[0]] + b'[..k];
      assert a[k + 1] < b[k + 1];
    }
    if FirstDifferenceLess(a, b) {
      var k :| 0 <= k < |a| && k < |b| && a[..k] == b[..k] && a[k] < b[k];
      assert a'[..k - 1] == a[..k][1..] && b'[..k - 1] == b[..k][1..];
      assert a'[k - 1] < b'[k - 1];
    }
  }

  lemma {:induction false} LessIrreflexive(a: string)
    ensures !Less(a, a)
    decreases |a|
  {
    if a != [] {
      LessIrreflexive(a[1..]);
    }
  }

  lemma {:induction false} LessTransitive(a: string, b: string, c: string)
    requires Less(a, b) && Less(b, c)
    ensures Less(a, c)
    decreases |a|
  {
    if a != [] && a[0] == b[0] && b[0] == c[0] {
      LessTransitive(a[1..], b[1..], c[1..]);
    }
  }

  lemma LessAsymmetric(a: string, b: string)
    requires Less(a, b)
    ensures !Less(b, a)
  {
    if Less(b, a) {
      LessTransitive(a, b, a);
      LessIrreflexive(a);
    }
  }

  /** Any two distinct strings are ordered one way or the other, as `sorted` needs. */
  lemma {:induction false} LessTotal(a: string, b: string)
    requires a != b
    ensures Less(a, b) || Less(b, a)
    decreases |a|
  {
    if a != [] && b != [] && a[0] == b[0] {
      assert a == [a[0]] + a[1..] && b == [b[0]] + b[1..];
      LessTotal(a[1..], b[1..]);
    }
  }

  /** Every element precedes every later one: ascending with no duplicates. */
  ghost predicate StrictlySorted(s: seq<string>) {
    forall i, j :: 0 <= i < j < |s| ==> Less(s[i], s[j])
  }

  lemma StrictlySortedDistinct(s: seq<string>)
    requires StrictlySorted(s)
    ensures forall i, j :: 0 <= i < |s| && 0 <= j < |s| && i != j ==> s[i] != s[j]
  {
    forall i, j | 0 <= i < j < |s|
      ensures s[i] != s[j]
    {
      LessIrreflexive(s[i]);
    }
  }

  /** Python's `set(s)` for a list of strings. */
  function Elems(s: seq<string>): set<string> {
    set x | x in s
  }

  /** The head of a strictly sorted sequence is its least element. */
  lemma HeadIsLeast(s: seq<string>, y: string)
    requires StrictlySorted(s) && y in s
    ensures y == s[0] || Less(s[0], y)
  {
    var k :| 0 <= k < |s| && s[k] == y;
  }

  lemma {:induction false} StrictlySortedCard(s: seq<string>)
    requires StrictlySorted(s)
    ensures |Elems(s)| == |s|
  {
    if s != [] {
      StrictlySortedCard(s[1..]);
      assert Elems(s) == {s[0]} + Elems(s[1..]) by {
        assert s == [s[0]] + s[1..];
      }
      if s[0] in s[1..] {
        var k :| 0 <= k < |s[1..]| && s[1..][k] == s[0];
        assert Less(s[0], s[k + 1]);
        LessIrreflexive(s[0]);
      }
    }
  }

  /** Dropping the head of a strictly sorted sequence removes exactly that element. */
  lemma StrictlySortedTail(s: seq<string>)
    requires StrictlySorted(s) && s != []
    ensures StrictlySorted(s[1..])
    ensures Elems(s[1..]) == Elems(s) - {s[0]}
  {
    assert s == [s[0]] + s[1..];
    assert Elems(s) == {s[0]} + Elems(s[1..]);
    if s[0] in s[1..] {
      var k :| 0 <= k < |s[1..]| && s[1..][k] == s[0];
      assert Less(s[0], s[k + 1]);
      LessIrreflexive(s[0]);
    }
  }

  /** A strictly sorted sequence is determined by its set of elements. */
  lemma {:induction false} StrictlySortedUnique(a: seq<string>, b: seq<string>)
    requires StrictlySorted(a) && StrictlySorted(b) && Elems(a) == Elems(b)
    ensures a == b
  {
    StrictlySortedCard(a);
    StrictlySortedCard(b);
    if a != [] {
      assert a[0] in Elems(b) && b[0] in Elems(a);
      HeadIsLeast(a, b[0]);
      HeadIsLeast(b, a[0]);
      if a[0] != b[0] {
        LessAsymmetric(a[0], b[0]);
      }
      StrictlySortedTail(a);
      StrictlySortedTail(b);
      StrictlySortedUnique(a[1..], b[1..]);
      assert a == [a[0]] + a[1..] && b == [b[0]] + b[1..];
    }
  }

  /** Inserting `x` into its place; nothing is added when `x` is already present. */
  function Insert(s: seq<string>, x: string): (r: seq<string>)
    requires StrictlySorted(s)
    ensures StrictlySorted(r)
    ensures Elems(r) == Elems(s) + {x}
  {
    if s == [] then [x]
    else if x == s[0] then s
    else if Less(x, s[0]) then
      LessBelowSorted(x, s);
      assert Elems([x] + s) == Elems(s) + {x};
      [x] + s
    else
      LessTotal(x, s[0]);
      var t := Insert(s[1..], x);
      HeadBelowInsert(s, x, t);
      assert s == [s[0]] + s[1..];
      assert Elems([s[0]] + t) == {s[0]} + Elems(t);
      [s[0]] + t
  }

  lemma LessBelowSorted(x: string, s: seq<string>)
    requires StrictlySorted(s) && s != [] && Less(x, s[0])
    ensures StrictlySorted([x] + s)
  {
    forall j | 0 < j < |s|
      ensures Less(x, s[j])
    {
      LessTransitive(x, s[0], s[j]);
    }
  }

  lemma HeadBelowInsert(s: seq<string>, x: string, t: seq<string>)
    requires StrictlySorted(s) && s != [] && StrictlySorted(t) && Less(s[0], x)
    requires Elems(t) == Elems(s[1..]) + {x}
    ensures StrictlySorted([s[0]] + t)
  {
    forall j | 0 <= j < |t|
      ensures Less(s[0], t[j])
    {
      assert t[j] in Elems(t);
      if t[j] != x {
        var k :| 0 <= k < |s[1..]| && s[1..][k] == t[j];
        assert s[k + 1] == t[j];
      }
    }
  }

  /** Python's `sorted(set(xs))`: the distinct elements of `xs` in ascending order. */
  function SortedSet(xs: seq<string>): (r: seq<string>)
    ensures StrictlySorted(r)
    ensures Elems(r) == Elems(xs)
    ensures |r| == |Elems(xs)|
  {
    if xs == [] then []
    else
      var r := Insert(SortedSet(xs[1..]), xs[0]);
      assert xs == [xs[0]] + xs[1..];
      assert Elems(xs) == Elems(xs[1..]) + {xs[0]};
      StrictlySortedCard(r);
      r
  }
}
