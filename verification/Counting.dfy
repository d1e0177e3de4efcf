/**
 Counting arguments behind the size bounds.
 */
module Counting {

  ghost predicate Distinct<T>(s: seq<T>) {
    forall i, j :: 0 <= i < j < |s| ==> s[i] != s[j]
  }

  // Distinct numbers below `n`: there are at most `n` of them.
  lemma {:induction false} Pigeonhole(s: seq<nat>, n: nat)
    requires Distinct(s) && forall v <- s :: v < n
    ensures |s| <= n
    decreases n
  {
    if s != [] {
      assert s[0] in s;
      if exists i :: 0 <= i < |s| && s[i] == n - 1 {
        var i :| 0 <= i < |s| && s[i] == n - 1;
        var rest := s[..i] + s[i + 1..];
        assert forall v <- rest :: v in s && v != n - 1;
        Pigeonhole(rest, n - 1);
      } else {
        Pigeonhole(s, n - 1);
      }
    }
  }

  // Distinct elements of a list: there are at most as many as the list has.
  lemma {:induction false} DistinctPart<T>(s: seq<T>, all: seq<T>)
    requires Distinct(s) && forall v <- s :: v in all
    ensures |s| <= |all|
    decreases |s|
  {
    if s != [] {
      var front, last := s[..|s| - 1], s[|s| - 1];
      assert last in s && last in all;
      var i :| 0 <= i < |all| && all[i] == last;
      var rest := all[..i] + all[i + 1..];
      forall v <- front ensures v in rest {
        var k :| 0 <= k < |front| && front[k] == v;
        assert s[k] == v && v in s && v in all && v != last;
        var j :| 0 <= j < |all| && all[j] == v;
        assert rest[if j < i then j else j - 1] == v;
      }
      DistinctPart(front, rest);
    }
  }

  lemma CodeInjective(a: nat, b: nat, c: nat, d: nat, m: nat)
    requires b < m && d < m && a * m + b == c * m + d
    ensures a == c && b == d
  {
    if a < c {
      Monotone(a + 1, c, m);
    } else if c < a {
      Monotone(c + 1, a, m);
    }
  }

  lemma Monotone(a: nat, b: nat, m: nat)
    requires a <= b
    ensures a * m <= b * m
  {
  }

  lemma CodeBelow(a: nat, b: nat, n: nat, m: nat)
    requires a < n && b < m
    ensures a * m + b < n * m
  {
    Monotone(a + 1, n, m);
    assert (a + 1) * m == a * m + m;
  }
}
