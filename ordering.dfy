/** Python's ordering of `str` values and `sorted()` of a set of links. */
module Ordering {

  /** `a < b` on Python strings: lexicographic by code point, a proper prefix first. */
  predicate Below(a: string, b: string)
    decreases |a|
  {
    if a == [] then b != []
    else b != [] && (a[0] < b[0] || (a[0] == b[0] && Below(a[1..], b[1..])))
  }

  /** The textbook reading of lexicographic order: `a` and `b` agree on their first `k` code
      points, and then either `a` ends while `b` goes on or `a` has the smaller code point. */
  predicate FirstDifferenceAt(a: string, b: string, k: nat) {
    k <= |a| && k <= |b| && a[..k] == b[..k]
    && ((k == |a| && k < |b|) || (k < |a| && k < |b| && a[k] < b[k]))
  }

  /** The recursive comparison is exactly lexicographic order. */
  lemma {:induction false} BelowIsLexicographic(a: string, b: string)
    ensures Below(a, b) <==> exists k: nat :: FirstDifferenceAt(a, b, k)
    decreases |a|
  {
    if a == [] || b == [] || a[0] < b[0] {
      assert b != [] ==> FirstDifferenceAt(a, b, 0);
    } else if a[0] == b[0] {
      BelowIsLexicographic(a[1..], b[1..]);
      if Below(a, b) {
        var k: nat :| FirstDifferenceAt(a[1..], b[1..], k);
        FirstDifferenceShift(a, b, k);
      }
      if exists k: nat :: FirstDifferenceAt(a, b, k) {
        var k: nat :| FirstDifferenceAt(a, b, k);
        assert k != 0;
        FirstDifferenceShift(a, b, k - 1);
      }
    } else {
      forall k: nat
        ensures !FirstDifferenceAt(a, b, k)
      {
        if 0 < k <= |a| && k <= |b| {
          assert a[..k][0] == a[0] && b[..k][0] == b[0];
        }
      }
    }
  }

  /** Dropping an equal first code point moves the first difference one place down. */
  lemma FirstDifferenceShift(a: string, b: string, k: nat)
    requires a != [] && b != [] && a[0] == b[0]
    ensures FirstDifferenceAt(a, b, k + 1) <==> FirstDifferenceAt(a[1..], b[1..], k)
  {
    if k + 1 <= |a| && k + 1 <= |b| {
      assert a[..k + 1] == [a[0]] + a[1..][..k];
      assert b[..k + 1] == [b[0]] + b[1..][..k];
    }
  }

  lemma {:induction false} BelowIrreflexive(a: string)
    ensures !Below(a, a)
    decreases |a|
  {
    if a != [] {
      BelowIrreflexive(a[1..]);
    }
  }

  lemma {:induction false} BelowAsymmetric(a: string, b: string)
    requires Below(a, b)
    ensures !Below(b, a)
    decreases |a|
  {
    if a != [] && a[0] == b[0] {
      BelowAsymmetric(a[1..], b[1..]);
    }
  }

  lemma {:induction false} BelowTransitive(a: string, b: string, c: string)
    requires Below(a, b) && Below(b, c)
    ensures Below(a, c)
    decreases |a|
  {
    if a != [] && a[0] == b[0] && b[0] == c[0] {
      BelowTransitive(a[1..], b[1..], c[1..]);
    }
  }

  lemma {:induction false} BelowTotal(a: string, b: string)
    ensures a == b || Below(a, b) || Below(b, a)
    decreases |a|
  {
    if a != [] && b != [] && a[0] == b[0] {
      BelowTotal(a[1..], b[1..]);
      if a[1..] == b[1..] {
        assert a == [a[0]] + a[1..] && b == [b[0]] + b[1..];
      }
    }
  }

  /** `m` comes before every other member of `s`. */
  predicate IsLeast(m: string, s: set<string>) {
    m in s && forall x :: x in s && x != m ==> Below(m, x)
  }

  lemma {:induction false} LeastExists(s: set<string>)
    requires s != {}
    ensures exists m :: IsLeast(m, s)
    decreases |s|
  {
    var y :| y in s;
    if s == {y} {
      assert IsLeast(y, s);
    } else {
      LeastExists(s - {y});
      var m :| IsLeast(m, s - {y});
      BelowTotal(y, m);
      if Below(y, m) {
        forall x | x in s && x != y
          ensures Below(y, x)
        {
          if x != m {
            BelowTransitive(y, m, x);
          }
        }
        assert IsLeast(y, s);
      } else {
        assert IsLeast(m, s);
      }
    }
  }

  lemma LeastUnique(s: set<string>, m: string, n: string)
    requires IsLeast(m, s) && IsLeast(n, s)
    ensures m == n
  {
    if m != n {
      BelowAsymmetric(m, n);
    }
  }

  /** The first string of `s` in Python's order. */
  function Least(s: set<string>): (m: string)
    requires s != {}
    ensures IsLeast(m, s)
  {
    LeastExists(s);
    assert forall m, n :: IsLeast(m, s) && IsLeast(n, s) ==> m == n by {
      forall m, n | IsLeast(m, s) && IsLeast(n, s)
        ensures m == n
      {
        LeastUnique(s, m, n);
      }
    }
    var m :| m in s && IsLeast(m, s);
    m
  }

  /** Strictly increasing: sorted and without repetition. */
  predicate Increasing(xs: seq<string>) {
    forall i, j :: 0 <= i < j < |xs| ==> Below(xs[i], xs[j])
  }

  /** `sorted(list(s))` for a set of strings: its members, each once, in increasing order. */
  function Sorted(s: set<string>): (xs: seq<string>)
    ensures Increasing(xs)
    ensures |xs| == |s|
    ensures forall x :: x in xs <==> x in s
    decreases |s|
  {
    if s == {} then []
    else
      var m := Least(s);
      var rest := Sorted(s - {m});
      assert forall j :: 0 <= j < |rest| ==> rest[j] in s - {m};
      [m] + rest
  }

  /** The members of the sorted list, as a set, are the sorted set. */
  lemma SortedMembers(s: set<string>)
    ensures (set x | x in Sorted(s)) == s
    ensures forall i :: 0 <= i < |Sorted(s)| ==> Sorted(s)[i] in s
  {
    var xs := Sorted(s);
    assert forall x :: x in xs <==> x in s;
  }

  /** Sorting the members of an already increasing list gives that list back; so the second
      `sorted()` that the message builder applies to the sorted delta changes nothing. */
  lemma {:induction false} SortedOfIncreasing(xs: seq<string>)
    requires Increasing(xs)
    ensures Sorted(set x | x in xs) == xs
    decreases |xs|
  {
    var s := set x | x in xs;
    if xs != [] {
      forall j | 0 < j < |xs|
        ensures xs[j] != xs[0]
      {
        BelowIrreflexive(xs[0]);
      }
      assert IsLeast(xs[0], s);
      LeastUnique(s, Least(s), xs[0]);
      assert Increasing(xs[1..]);
      assert s - {xs[0]} == set x | x in xs[1..];
      SortedOfIncreasing(xs[1..]);
      assert xs == [xs[0]] + xs[1..];
    }
  }
}
