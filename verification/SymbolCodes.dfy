/** Symbol codes in strcmp order, and sorted tables of them. */
module SymbolCodes {
  import opened Bytes

  /** strcmp(a, b) < 0 for C strings. */
  predicate Less(a: bytes, b: bytes) {
    |b| > 0 && (|a| == 0 || a[0] < b[0] || (a[0] == b[0] && Less(a[1..], b[1..])))
  }

  lemma {:induction false} LessTransitive(a: bytes, b: bytes, c: bytes)
    requires Less(a, b) && Less(b, c)
    ensures Less(a, c)
  {
    if |a| > 0 && a[0] == b[0] == c[0] {
      LessTransitive(a[1..], b[1..], c[1..]);
    }
  }

  lemma {:induction false} LessTotal(a: bytes, b: bytes)
    ensures Less(a, b) || a == b || Less(b, a)
  {
    if |a| > 0 && |b| > 0 && a[0] == b[0] {
      LessTotal(a[1..], b[1..]);
      assert a == [a[0]] + a[1..] && b == [b[0]] + b[1..];
    }
  }

  lemma {:induction false} LessAsymmetric(a: bytes, b: bytes)
    requires Less(a, b)
    ensures a != b && !Less(b, a)
  {
    if |a| > 0 && a[0] == b[0] {
      LessAsymmetric(a[1..], b[1..]);
    }
  }

  /** An entry of the symbol table: code, room number and valid mark. */
  datatype Symb = Symb(code: bytes, seqn: int, mark: bool)

  ghost predicate Sorted(s: seq<Symb>) {
    forall i, j :: 0 <= i < j < |s| ==> Less(s[i].code, s[j].code)
  }

  ghost predicate DistinctCodes(s: seq<Symb>) {
    forall i, j :: 0 <= i < j < |s| ==> s[i].code != s[j].code
  }

  /** Position of the code in the table, or the length when it is not there. */
  function Position(s: seq<Symb>, code: bytes): (r: nat)
    ensures r <= |s|
    ensures r < |s| ==> s[r].code == code
    ensures forall i :: 0 <= i < r ==> s[i].code != code
  {
    if |s| == 0 || s[0].code == code then 0
    else
      assert forall i :: 1 <= i < |s| ==> s[i] == s[1..][i - 1];
      1 + Position(s[1..], code)
  }

  lemma PositionUnique(s: seq<Symb>, code: bytes, i: nat)
    requires DistinctCodes(s) && i < |s| && s[i].code == code
    ensures Position(s, code) == i
  {
  }

  lemma SortedIsDistinct(s: seq<Symb>)
    requires Sorted(s)
    ensures DistinctCodes(s)
  {
    forall i, j | 0 <= i < j < |s| ensures s[i].code != s[j].code {
      LessAsymmetric(s[i].code, s[j].code);
    }
  }

  /** bsearch: finds the entry of a sorted table if and only if the code is there. */
  method BinarySearch(s: array<Symb>, n: nat, code: bytes) returns (r: nat)
    requires n <= s.Length && Sorted(s[..n])
    ensures r == Position(s[..n], code)
  {
    SortedIsDistinct(s[..n]);
    var lo, hi := 0, n;
    while lo < hi
      invariant lo <= hi <= n
      invariant forall i :: 0 <= i < lo ==> Less(s[i].code, code)
      invariant forall i :: hi <= i < n ==> Less(code, s[i].code)
    {
      var mid := (lo + hi) / 2;
      if s[mid].code == code {
        PositionUnique(s[..n], code, mid);
        return mid;
      } else if Less(s[mid].code, code) {
        SplitBelow(s[..n], code, mid);
        lo := mid + 1;
      } else {
        SplitAbove(s[..n], code, mid);
        hi := mid;
      }
    }
    NotThere(s[..n], code, lo);
    return n;
  }

  lemma SplitBelow(s: seq<Symb>, code: bytes, mid: nat)
    requires Sorted(s) && mid < |s| && Less(s[mid].code, code)
    ensures forall i :: 0 <= i <= mid ==> Less(s[i].code, code)
  {
    forall i | 0 <= i < mid ensures Less(s[i].code, code) {
      LessTransitive(s[i].code, s[mid].code, code);
    }
  }

  lemma SplitAbove(s: seq<Symb>, code: bytes, mid: nat)
    requires Sorted(s) && mid < |s| && s[mid].code != code && !Less(s[mid].code, code)
    ensures forall i :: mid <= i < |s| ==> Less(code, s[i].code)
  {
    LessTotal(s[mid].code, code);
    forall i | mid < i < |s| ensures Less(code, s[i].code) {
      LessTransitive(code, s[mid].code, s[i].code);
    }
  }

  lemma NotThere(s: seq<Symb>, code: bytes, k: nat)
    requires k <= |s|
    requires forall i :: 0 <= i < k ==> Less(s[i].code, code)
    requires forall i :: k <= i < |s| ==> Less(code, s[i].code)
    ensures Position(s, code) == |s|
  {
    forall i | 0 <= i < |s| ensures s[i].code != code {
      LessAsymmetric(if i < k then s[i].code else code, if i < k then code else s[i].code);
    }
  }

  // ----- sorting

  function Insert(x: Symb, s: seq<Symb>): (r: seq<Symb>)
    ensures |r| == |s| + 1
  {
    if |s| == 0 || Less(x.code, s[0].code) then [x] + s else [s[0]] + Insert(x, s[1..])
  }

  /** The table in code order: what qsort leaves behind. */
  function Sort(s: seq<Symb>): (r: seq<Symb>)
    ensures |r| == |s|
  {
    if |s| == 0 then [] else Insert(s[0], Sort(s[1..]))
  }

  lemma {:induction false} SortPermutes(s: seq<Symb>)
    ensures multiset(Sort(s)) == multiset(s)
  {
    if |s| > 0 {
      SortPermutes(s[1..]);
      InsertAdds(s[0], Sort(s[1..]));
      assert s == [s[0]] + s[1..];
    }
  }

  lemma {:induction false} InsertAdds(x: Symb, s: seq<Symb>)
    ensures multiset(Insert(x, s)) == multiset(s) + multiset{x}
  {
    if |s| > 0 {
      InsertAdds(x, s[1..]);
      assert s == [s[0]] + s[1..];
    }
  }

  lemma {:induction false} InsertSorted(x: Symb, s: seq<Symb>)
    requires Sorted(s) && forall i :: 0 <= i < |s| ==> s[i].code != x.code
    ensures Sorted(Insert(x, s))
  {
    if |s| > 0 {
      if Less(x.code, s[0].code) {
        SplitAbove(s, x.code, 0) by { LessAsymmetric(x.code, s[0].code); }
        InFront(x, s);
      } else {
        InsertSorted(x, s[1..]);
        var t := Insert(x, s[1..]);
        InsertAdds(x, s[1..]);
        LessTotal(x.code, s[0].code);
        forall i | 0 <= i < |t| ensures Less(s[0].code, t[i].code) {
          assert t[i] in multiset(t);
          assert t[i] in multiset(s[1..]) || t[i] == x;
        }
        InFront(s[0], t);
      }
    }
  }

  lemma InFront(x: Symb, s: seq<Symb>)
    requires Sorted(s) && forall i :: 0 <= i < |s| ==> Less(x.code, s[i].code)
    ensures Sorted([x] + s)
  {
  }

  lemma {:induction false} SortSorts(s: seq<Symb>)
    requires DistinctCodes(s)
    ensures Sorted(Sort(s)) && multiset(Sort(s)) == multiset(s)
  {
    SortPermutes(s);
    if |s| > 0 {
      SortSorts(s[1..]);
      var t := Sort(s[1..]);
      forall i | 0 <= i < |t| ensures t[i].code != s[0].code {
        assert t[i] in multiset(t);
        assert t[i] in multiset(s[1..]);
      }
      InsertSorted(s[0], t);
    }
  }

  lemma TwiceMeansTwo(s: seq<Symb>, i: nat, j: nat)
    requires i < j < |s| && s[i] == s[j]
    ensures multiset(s)[s[i]] >= 2
  {
    var a, b := s[..j], s[j..];
    assert s == a + b && a[i] == s[i] && b[0] == s[i];
    assert s[i] in multiset(a) && s[i] in multiset(b);
  }

  lemma TwoMeansTwice(s: seq<Symb>, x: Symb) returns (i: nat, j: nat)
    requires multiset(s)[x] >= 2
    ensures i < j < |s| && s[i] == x && s[j] == x
  {
    assert x in multiset(s);
    i :| 0 <= i < |s| && s[i] == x && x !in s[..i] by { FirstOne(s, x); }
    var a, b := s[..i], s[i + 1..];
    assert s == a + [x] + b;
    assert x !in multiset(a) && x in multiset(b);
    j :| 0 <= j < |b| && b[j] == x;
    j := i + 1 + j;
  }

  lemma FirstOne(s: seq<Symb>, x: Symb)
    requires x in s
    ensures exists i :: 0 <= i < |s| && s[i] == x && x !in s[..i]
  {
    var i :| 0 <= i < |s| && s[i] == x;
    if x in s[..i] {
      FirstOne(s[..i], x);
      var k :| 0 <= k < i && s[..i][k] == x && x !in s[..i][..k];
      assert s[..i][..k] == s[..k] && s[k] == x;
    }
  }

  /** Same entries, whatever the order: everything said about members carries over. */
  lemma SameEntries(s: seq<Symb>, t: seq<Symb>)
    requires multiset(s) == multiset(t)
    ensures |s| == |t|
    ensures forall x :: x in s <==> x in t
  {
    assert |multiset(s)| == |multiset(t)|;
    forall x ensures x in s <==> x in t {
      assert x in multiset(s) <==> x in multiset(t);
    }
  }
}
