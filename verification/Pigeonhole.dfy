/** Counting arguments on finite sets and tables. */
module Pigeonhole {
  ghost function UpTo(n: nat): (s: set<nat>)
    ensures |s| == n
    ensures forall c: nat :: c in s <==> c < n
  {
    if n == 0 then {} else UpTo(n - 1) + {n - 1}
  }

  ghost function Elements(s: seq<nat>): (r: set<nat>)
    ensures |r| <= |s|
    ensures forall i :: 0 <= i < |s| ==> s[i] in r
  {
    if |s| == 0 then {} else Elements(s[..|s| - 1]) + {s[|s| - 1]}
  }

  lemma SubsetSize<T>(a: set<T>, b: set<T>)
    requires a <= b
    ensures |a| <= |b|
  {
    assert b == a + (b - a);
  }

  /** Distinct numbers below the length of their table leave none out. */
  lemma Onto(s: seq<int>, r: nat)
    requires forall i :: 0 <= i < |s| ==> 0 <= s[i] < |s|
    requires forall i, j :: 0 <= i < j < |s| ==> s[i] != s[j]
    requires r < |s|
    ensures exists i :: 0 <= i < |s| && s[i] == r
  {
    var values := Distinct(s);
    if forall i :: 0 <= i < |s| ==> s[i] != r {
      SubsetSize(values + {r}, UpTo(|s|));
    }
  }

  ghost function Distinct(s: seq<int>): (r: set<nat>)
    requires forall i :: 0 <= i < |s| ==> s[i] >= 0
    requires forall i, j :: 0 <= i < j < |s| ==> s[i] != s[j]
    ensures |r| == |s|
    ensures forall x :: x in r <==> x in s
  {
    if |s| == 0 then {}
    else
      assert s == s[..|s| - 1] + [s[|s| - 1]];
      Distinct(s[..|s| - 1]) + {s[|s| - 1]}
  }
}
