/** Strings over Java's `char`, ordered by character code. */
module Strings {

  /** `p` is a prefix of `s` (Java's `s.startsWith(p)`). */
  predicate IsPrefix(p: string, s: string)
  {
    |p| <= |s| && s[..|p|] == p
  }

  /** Strict lexicographic order by character code; a proper prefix comes first. */
  predicate Less(a: string, b: string)
  {
    |b| > 0 && (|a| == 0 || a[0] < b[0] || (a[0] == b[0] && Less(a[1..], b[1..])))
  }

  /** Strictly increasing, hence also free of duplicates. */
  predicate Sorted(xs: seq<string>)
  {
    forall i, j :: 0 <= i < j < |xs| ==> Less(xs[i], xs[j])
  }

  lemma {:induction false} LessIrreflexive(a: string)
    ensures !Less(a, a)
  {
    if |a| > 0 {
      LessIrreflexive(a[1..]);
    }
  }

  lemma {:induction false} LessTransitive(a: string, b: string, c: string)
    requires Less(a, b) && Less(b, c)
    ensures Less(a, c)
  {
    if |a| > 0 && a[0] == b[0] && b[0] == c[0] {
      LessTransitive(a[1..], b[1..], c[1..]);
    }
  }

  /** Any two different strings are ordered one way or the other. */
  lemma {:induction false} LessTotal(a: string, b: string)
    requires a != b
    ensures Less(a, b) || Less(b, a)
  {
    if |a| > 0 && |b| > 0 && a[0] == b[0] {
      assert a == [a[0]] + a[1..] && b == [b[0]] + b[1..];
      LessTotal(a[1..], b[1..]);
    }
  }

  /** A proper prefix precedes its extensions. */
  lemma {:induction false} LessProperPrefix(a: string, b: string)
    requires |a| < |b| && b[..|a|] == a
    ensures Less(a, b)
  {
    if |a| > 0 {
      assert a[0] == b[0];
      assert b[1..][..|a| - 1] == a[1..];
      LessProperPrefix(a[1..], b[1..]);
    }
  }

  /** Two strings that agree on their first `m` characters are ordered by the next one. */
  lemma {:induction false} LessAt(a: string, b: string, m: nat)
    requires m < |a| && m < |b| && a[..m] == b[..m] && a[m] < b[m]
    ensures Less(a, b)
  {
    if m > 0 {
      assert a[0] == a[..m][0] == b[..m][0] == b[0];
      assert a[1..][..m - 1] == a[..m][1..] == b[..m][1..] == b[1..][..m - 1];
      LessAt(a[1..], b[1..], m - 1);
    }
  }

  lemma SortedAppend(xs: seq<string>, ys: seq<string>)
    requires Sorted(xs) && Sorted(ys)
    requires forall x, y :: x in xs && y in ys ==> Less(x, y)
    ensures Sorted(xs + ys)
  {
    var zs := xs + ys;
    forall i, j | 0 <= i < j < |zs|
      ensures Less(zs[i], zs[j])
    {
      if j < |xs| {
        assert zs[i] == xs[i] && zs[j] == xs[j];
      } else if i >= |xs| {
        assert zs[i] == ys[i - |xs|] && zs[j] == ys[j - |xs|];
      } else {
        assert zs[i] in xs && zs[j] in ys;
      }
    }
  }

  /** A sorted list holds each element once. */
  lemma SortedDistinct(xs: seq<string>, i: nat, j: nat)
    requires Sorted(xs) && i < j < |xs|
    ensures xs[i] != xs[j]
  {
    LessIrreflexive(xs[i]);
  }

  /** The head of a sorted list precedes nothing else in it. */
  lemma HeadLeast(xs: seq<string>, y: string)
    requires Sorted(xs) && |xs| > 0 && y in xs
    ensures !Less(y, xs[0])
  {
    var k :| 0 <= k < |xs| && xs[k] == y;
    if k == 0 {
      LessIrreflexive(y);
    } else if Less(y, xs[0]) {
      LessTransitive(xs[0], y, xs[0]);
      LessIrreflexive(xs[0]);
    }
  }

  /** A sorted list is determined by its elements. */
  lemma {:induction false} SortedUnique(xs: seq<string>, ys: seq<string>)
    requires Sorted(xs) && Sorted(ys)
    requires forall x :: x in xs <==> x in ys
    ensures xs == ys
  {
    assert xs != [] ==> xs[0] in ys;
    assert ys != [] ==> ys[0] in xs;
    if xs != [] && ys != [] {
      HeadLeast(xs, ys[0]);
      HeadLeast(ys, xs[0]);
      if xs[0] != ys[0] {
        LessTotal(xs[0], ys[0]);
      }
      forall x ensures x in xs[1..] <==> x in ys[1..] {
        LessIrreflexive(x);
        if x in xs[1..] {
          var k :| 1 <= k < |xs| && xs[k] == x;
          assert x != xs[0];
          assert x in ys;
        }
        if x in ys[1..] {
          var k :| 1 <= k < |ys| && ys[k] == x;
          assert x != ys[0];
          assert x in xs;
        }
      }
      SortedUnique(xs[1..], ys[1..]);
      assert xs == [xs[0]] + xs[1..] && ys == [ys[0]] + ys[1..];
    }
  }
}
