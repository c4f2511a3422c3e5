/**
 The order Python uses on `str` values (lexicographic on code points) and the
 `sorted(list(s))` call that turns the set of collected source URLs into the
 ascending, duplicate-free list handed back to the caller.
 */
module Ordering {

  /** `a < b` on Python strings: the first differing code point decides, and a
      proper prefix comes first. */
  predicate Below(a: string, b: string)
    ensures Below(a, b) ==> a != b
  {
    b != [] && (a == [] || a[0] < b[0] || (a[0] == b[0] && Below(a[1..], b[1..])))
  }

  /** No string is below itself. */
  lemma {:induction false} BelowIrreflexive(a: string)
    ensures !Below(a, a)
  {
    if a != [] {
      BelowIrreflexive(a[1..]);
    }
  }

  /** The order is transitive. */
  lemma {:induction false} BelowTransitive(a: string, b: string, c: string)
    requires Below(a, b) && Below(b, c)
    ensures Below(a, c)
  {
    if a != [] && a[0] == b[0] && b[0] == c[0] {
      BelowTransitive(a[1..], b[1..], c[1..]);
    }
  }

  /** Any two strings are equal or comparable one way. */
  lemma {:induction false} BelowTotal(a: string, b: string)
    ensures a == b || Below(a, b) || Below(b, a)
  {
    if a != [] && b != [] && a[0] == b[0] {
      BelowTotal(a[1..], b[1..]);
      if a[1..] == b[1..] {
        assert a == [a[0]] + a[1..] && b == [b[0]] + b[1..];
      }
    }
  }

  /** Each element is below every later one. */
  predicate StrictlyAscending(xs: seq<string>)
  {
    forall i, j :: 0 <= i < j < |xs| ==> Below(xs[i], xs[j])
  }

  /** `m` is in `s` and below every other member. */
  predicate IsLeast(m: string, s: set<string>)
  {
    m in s && forall y :: y in s && y != m ==> Below(m, y)
  }

  /** Every non-empty finite set of strings has a least member. */
  lemma {:induction false} LeastExists(s: set<string>)
    requires s != {}
    ensures exists m :: IsLeast(m, s)
    decreases |s|
  {
    var x :| x in s;
    if s == {x} {
      assert IsLeast(x, s);
    } else {
      var rest := s - {x};
      assert |rest| < |s|;
      LeastExists(rest);
      var m :| IsLeast(m, rest);
      BelowTotal(x, m);
      if Below(x, m) {
        forall y | y in s && y != x
          ensures Below(x, y)
        {
          if y != m {
            BelowTransitive(x, m, y);
          }
        }
        assert IsLeast(x, s);
      } else {
        assert IsLeast(m, s);
      }
    }
  }

  /** And only one. */
  lemma LeastUnique(s: set<string>)
    ensures forall m, n :: IsLeast(m, s) && IsLeast(n, s) ==> m == n
  {
    forall m, n | IsLeast(m, s) && IsLeast(n, s)
      ensures m == n
    {
      if m != n {
        BelowTransitive(m, n, m);
        BelowIrreflexive(m);
      }
    }
  }

  /** The least element of a non-empty set of strings. */
  function Least(s: set<string>): (m: string)
    requires s != {}
    ensures m in s
    ensures forall y :: y in s && y != m ==> Below(m, y)
  {
    LeastExists(s);
    LeastUnique(s);
    var m :| IsLeast(m, s);
    m
  }

  /** `sorted(list(s))`: the members of `s`, each once, in ascending order. */
  function SortedList(s: set<string>): (r: seq<string>)
    ensures StrictlyAscending(r)
    ensures |r| == |s|
    ensures forall u :: u in r <==> u in s
    decreases |s|
  {
    if s == {} then []
    else
      var m := Least(s);
      var rest := s - {m};
      assert |rest| == |s| - 1;
      var tail := SortedList(rest);
      assert forall j :: 0 <= j < |tail| ==> tail[j] in tail && tail[j] in rest;
      ConsAscending(m, tail);
      [m] + tail
  }

  /** An element below every element of an ascending list can go in front. */
  lemma ConsAscending(m: string, tail: seq<string>)
    requires StrictlyAscending(tail)
    requires forall j :: 0 <= j < |tail| ==> Below(m, tail[j])
    ensures StrictlyAscending([m] + tail)
  {
    var r := [m] + tail;
    forall i, j | 0 <= i < j < |r|
      ensures Below(r[i], r[j])
    {
      assert r[j] == tail[j - 1];
      if i > 0 {
        assert r[i] == tail[i - 1];
      }
    }
  }

  /** An ascending list has no repeated element. */
  lemma AscendingDistinct(xs: seq<string>)
    requires StrictlyAscending(xs)
    ensures forall i, j :: 0 <= i < j < |xs| ==> xs[i] != xs[j]
  {
    forall i, j | 0 <= i < j < |xs|
      ensures xs[i] != xs[j]
    {
      BelowIrreflexive(xs[i]);
    }
  }

  /** A sequence with no members is empty. */
  lemma NoMembersEmpty(b: seq<string>)
    ensures (forall u :: u !in b) ==> b == []
  {
    if b != [] {
      assert b[0] in b;
    }
  }

  /** A set has exactly one ascending listing, so `SortedList` is determined by
      its contract. */
  lemma {:induction false} AscendingUnique(a: seq<string>, b: seq<string>)
    requires StrictlyAscending(a) && StrictlyAscending(b)
    requires forall u :: u in a <==> u in b
    ensures a == b
  {
    if a != [] {
      assert a[0] in b;
      assert b != [];
      if a[0] != b[0] {
        assert b[0] in a;
        var i :| 0 <= i < |a| && a[i] == b[0];
        var j :| 0 <= j < |b| && b[j] == a[0];
        assert Below(a[0], b[0]) && Below(b[0], a[0]);
        BelowTransitive(a[0], b[0], a[0]);
        BelowIrreflexive(a[0]);
      }
      AscendingDistinct(a);
      AscendingDistinct(b);
      forall u
        ensures u in a[1..] <==> u in b[1..]
      {
        if u in a[1..] {
          var i :| 1 <= i < |a| && a[i] == u;
          assert u in b && u != b[0];
        }
        if u in b[1..] {
          var j :| 1 <= j < |b| && b[j] == u;
          assert u in a && u != a[0];
        }
      }
      AscendingUnique(a[1..], b[1..]);
      assert a == [a[0]] + a[1..] && b == [b[0]] + b[1..];
    } else {
      assert forall u :: u !in b;
      NoMembersEmpty(b);
    }
  }
}
