/** Structural equality and deep copies of JSON values. */
module JsonEquality {
  import opened Bytes
  import opened JsonValue
  import opened JsonText
  import opened Decimal

  const EPSILON: real := 0.000001

  function Abs(x: real): real {
    if x < 0.0 then -x else x
  }

  /** json_value_equals; an object is compared by looking up the names of the first in both. */
  predicate Equals(a: Value, b: Value)
    decreases a
  {
    match (a, b)
    case (Null, Null) => true
    case (Boolean(x), Boolean(y)) => x == y
    case (Number(x), Number(y)) => Abs(x - y) < EPSILON
    case (String(s), String(t)) => s == t
    case (Array(xs), Array(ys)) => |xs| == |ys| && forall i :: 0 <= i < |xs| ==> Equals(xs[i], ys[i])
    case (Object(xs), Object(ys)) =>
      |xs| == |ys| && forall i :: 0 <= i < |xs| ==> EqualsAt(xs, ys, xs[i].name)
    case _ => false
  }

  /** The values under one name; a name that is missing in the second object matches nothing. */
  predicate EqualsAt(xs: seq<Member>, ys: seq<Member>, name: bytes)
    decreases xs, 0
  {
    var i, w := IndexOf(xs, name), Lookup(ys, name);
    i < |xs| && w.Some? && EqualsMember(xs[i], w.value)
  }

  predicate EqualsMember(m: Member, w: Value)
    decreases m, 0
  {
    Equals(m.value, w)
  }

  lemma {:induction false} EqualsReflexive(v: Value)
    requires WellFormed(v)
    ensures Equals(v, v)
    decreases v
  {
    match v {
      case Array(xs) => forall i | 0 <= i < |xs| ensures Equals(xs[i], xs[i]) { EqualsReflexive(xs[i]); }
      case Object(ms) =>
        forall i | 0 <= i < |ms| ensures EqualsAt(ms, ms, ms[i].name) {
          LookupAt(ms, i);
          EqualsReflexive(ms[i].value);
        }
      case _ =>
    }
  }

  ghost function NameSet(ms: seq<Member>): (s: set<bytes>)
    ensures forall k :: k in s <==> HasName(ms, k)
    ensures |s| <= |ms|
    ensures Distinct(ms) ==> |s| == |ms|
  {
    if |ms| == 0 then {}
    else
      var init, last := ms[..|ms| - 1], ms[|ms| - 1].name;
      assert forall k :: HasName(ms, k) <==> HasName(init, k) || k == last by {
        forall k ensures HasName(ms, k) <==> HasName(init, k) || k == last {
          if HasName(init, k) {
            var i :| 0 <= i < |init| && init[i].name == k;
            assert ms[i].name == k;
          }
          assert ms[|ms| - 1].name == last;
          if HasName(ms, k) && k != last {
            var i :| 0 <= i < |ms| && ms[i].name == k;
            assert init[i].name == k;
          }
        }
      }
      NameSet(init) + {last}
  }

  /** Walking only the first object's names is enough: equal counts of distinct names force equal name sets. */
  lemma SameNames(xs: seq<Member>, ys: seq<Member>)
    requires Distinct(xs) && Distinct(ys) && |xs| == |ys|
    requires forall i :: 0 <= i < |xs| ==> HasName(ys, xs[i].name)
    ensures forall k :: HasName(xs, k) <==> HasName(ys, k)
  {
    assert NameSet(xs) <= NameSet(ys);
    SubsetOfSameSize(NameSet(xs), NameSet(ys));
    assert NameSet(xs) == NameSet(ys);
    forall k ensures HasName(xs, k) <==> HasName(ys, k) {
      assert k in NameSet(xs) <==> k in NameSet(ys);
    }
  }

  lemma SubsetOfSameSize<T>(a: set<T>, b: set<T>)
    requires a <= b && |a| == |b|
    ensures a == b
  {
    assert |b - a| == |b| - |a|;
  }

  /** The same names, with equal values. */
  ghost predicate SameByName(xs: seq<Member>, ys: seq<Member>) {
    forall k :: HasName(xs, k) == HasName(ys, k) && (HasName(xs, k) ==> EqualsAt(xs, ys, k))
  }

  /** Two objects are equal exactly when they have the same names with equal values, in whatever order. */
  lemma EqualObjects(xs: seq<Member>, ys: seq<Member>)
    requires Distinct(xs) && Distinct(ys)
    ensures Equals(Object(xs), Object(ys)) <==> SameByName(xs, ys)
  {
    hide EqualsAt, Distinct;
    EqualsUnfolds(xs, ys);
    if Equals(Object(xs), Object(ys)) {
      EqualNamesEqual(xs, ys);
    }
    if SameByName(xs, ys) {
      assert NameSet(xs) == NameSet(ys);
      forall i | 0 <= i < |xs| ensures EqualsAt(xs, ys, xs[i].name) {
        assert HasName(xs, xs[i].name);
      }
    }
  }

  lemma EqualsUnfolds(xs: seq<Member>, ys: seq<Member>)
    ensures Equals(Object(xs), Object(ys)) <==>
            |xs| == |ys| && forall i :: 0 <= i < |xs| ==> EqualsAt(xs, ys, xs[i].name)
  {
  }

  lemma EqualNamesEqual(xs: seq<Member>, ys: seq<Member>)
    requires Distinct(xs) && Distinct(ys) && |xs| == |ys|
    requires forall i :: 0 <= i < |xs| ==> EqualsAt(xs, ys, xs[i].name)
    ensures SameByName(xs, ys)
  {
    hide Equals, EqualsMember;
    SameNames(xs, ys);
    forall k | HasName(xs, k) ensures EqualsAt(xs, ys, k) {
      assert xs[IndexOf(xs, k)].name == k;
    }
  }

  lemma LookupWellFormed(ms: seq<Member>, k: bytes)
    requires WellFormed(Object(ms)) && HasName(ms, k)
    ensures WellFormed(Lookup(ms, k).value)
  {
    assert WellFormed(ms[IndexOf(ms, k)].value);
  }

  lemma {:induction false} EqualsSymmetric(a: Value, b: Value)
    requires WellFormed(a) && WellFormed(b) && Equals(a, b)
    ensures Equals(b, a)
    decreases a
  {
    match (a, b) {
      case (Array(xs), Array(ys)) =>
        forall i | 0 <= i < |xs| ensures Equals(ys[i], xs[i]) { EqualsSymmetric(xs[i], ys[i]); }
      case (Object(xs), Object(ys)) => SymmetricObjects(xs, ys);
      case _ =>
    }
  }

  lemma {:induction false} SymmetricObjects(xs: seq<Member>, ys: seq<Member>)
    requires WellFormed(Object(xs)) && WellFormed(Object(ys)) && Equals(Object(xs), Object(ys))
    ensures Equals(Object(ys), Object(xs))
    decreases xs
  {
    EqualObjects(xs, ys);
    forall k | HasName(ys, k)
      ensures HasName(xs, k) && EqualsAt(ys, xs, k)
    {
      assert HasName(xs, k) == HasName(ys, k) && EqualsAt(xs, ys, k);
      LookupWellFormed(xs, k);
      LookupWellFormed(ys, k);
      assert WellFormed(xs[IndexOf(xs, k)].value) && EqualsMember(xs[IndexOf(xs, k)], Lookup(ys, k).value);
      SymmetricMember(xs[IndexOf(xs, k)], Lookup(ys, k).value);
    }
    EqualObjects(ys, xs);
  }

  lemma {:induction false} SymmetricMember(m: Member, w: Value)
    requires WellFormed(m.value) && WellFormed(w) && EqualsMember(m, w)
    ensures Equals(w, m.value)
    decreases m
  {
    EqualsSymmetric(m.value, w);
  }

  // ----- what equality means

  /** The same up to the order of members, with numbers less than a millionth apart. */
  ghost predicate Alike(a: Value, b: Value)
    decreases a
  {
    match (a, b)
    case (Null, Null) => true
    case (Boolean(x), Boolean(y)) => x <==> y
    case (Number(x), Number(y)) => -0.000001 < x - y < 0.000001
    case (String(s), String(t)) => |s| == |t| && forall i :: 0 <= i < |s| ==> s[i] == t[i]
    case (Array(xs), Array(ys)) => |xs| == |ys| && forall i :: 0 <= i < |xs| ==> Alike(xs[i], ys[i])
    case (Object(xs), Object(ys)) =>
      |xs| == |ys| && forall i :: 0 <= i < |xs| ==> HasPair(xs[i], ys)
    case _ => false
  }

  /** Some member has the same name and a value like this one's. */
  ghost predicate HasPair(m: Member, ys: seq<Member>)
    decreases m, 0
  {
    exists j :: 0 <= j < |ys| && m.name == ys[j].name && Alike(m.value, ys[j].value)
  }

  /** Equality is likeness, for whatever a table can hold. */
  lemma {:induction false} EqualsIsAlike(a: Value, b: Value)
    requires WellFormed(a) && WellFormed(b)
    ensures Equals(a, b) <==> Alike(a, b)
    decreases a, 1
  {
    match (a, b) {
      case (Array(xs), Array(ys)) =>
        if |xs| == |ys| {
          forall i | 0 <= i < |xs| ensures Equals(xs[i], ys[i]) <==> Alike(xs[i], ys[i]) {
            EqualsIsAlike(xs[i], ys[i]);
          }
        }
      case (Object(xs), Object(ys)) => ObjectsPaired(xs, ys);
      case _ =>
    }
  }

  lemma AlikeUnfolds(xs: seq<Member>, ys: seq<Member>)
    ensures Alike(Object(xs), Object(ys)) <==>
              |xs| == |ys| && forall i :: 0 <= i < |xs| ==> HasPair(xs[i], ys)
  {
  }

  lemma {:induction false} ObjectsPaired(xs: seq<Member>, ys: seq<Member>)
    requires WellFormed(Object(xs)) && WellFormed(Object(ys))
    ensures Equals(Object(xs), Object(ys)) <==> Alike(Object(xs), Object(ys))
    decreases xs, 1
  {
    hide Equals, Alike, EqualsAt, HasPair, WellFormed;
    EqualsUnfolds(xs, ys);
    AlikeUnfolds(xs, ys);
    forall i | 0 <= i < |xs|
      ensures EqualsAt(xs, ys, xs[i].name) <==> HasPair(xs[i], ys)
    {
      MembersPaired(xs, ys, i);
    }
  }

  lemma {:induction false} MembersPaired(xs: seq<Member>, ys: seq<Member>, i: nat)
    requires WellFormed(Object(xs)) && WellFormed(Object(ys)) && i < |xs|
    ensures EqualsAt(xs, ys, xs[i].name) <==> HasPair(xs[i], ys)
    decreases xs, 0
  {
    hide Equals, Alike;
    LookupAt(xs, i);
    var k := IndexOf(ys, xs[i].name);
    if k < |ys| {
      PairIsEqual(xs[i], ys[k].value);
    }
    forall j | 0 <= j < |ys| && xs[i].name == ys[j].name ensures j == k {
      LookupAt(ys, j);
    }
  }

  lemma {:induction false} PairIsEqual(m: Member, w: Value)
    requires WellFormed(m.value) && WellFormed(w)
    ensures EqualsMember(m, w) <==> Alike(m.value, w)
    decreases m, 0
  {
    EqualsIsAlike(m.value, w);
  }

  // ----- transitivity

  /** Every number in the value, on any level, is one of `S`. */
  ghost predicate NumbersIn(v: Value, S: iset<real>)
    decreases v
  {
    match v
    case Number(x) => x in S
    case Array(xs) => forall i :: 0 <= i < |xs| ==> NumbersIn(xs[i], S)
    case Object(ms) => forall i :: 0 <= i < |ms| ==> NumbersIn(ms[i].value, S)
    case _ => true
  }

  predicate Close(x: real, y: real) {
    Abs(x - y) < EPSILON
  }

  /** The numbers fall into clusters: what is close to something close is close itself. */
  ghost predicate CloseTransitive(S: iset<real>) {
    forall x, y, z :: x in S && y in S && z in S && Close(x, y) && Close(y, z) ==> Close(x, z)
  }

  /** Values a table can hold, with numbers of `S` only. */
  ghost predicate Over(v: Value, S: iset<real>) {
    WellFormed(v) && NumbersIn(v, S)
  }

  lemma LookupOver(ms: seq<Member>, k: bytes, S: iset<real>)
    requires Over(Object(ms), S) && HasName(ms, k)
    ensures IndexOf(ms, k) < |ms| && Over(ms[IndexOf(ms, k)].value, S)
    ensures Lookup(ms, k) == Some(ms[IndexOf(ms, k)].value)
  {
    LookupWellFormed(ms, k);
  }

  lemma {:induction false} EqualsTransitive(a: Value, b: Value, c: Value, S: iset<real>)
    requires Over(a, S) && Over(b, S) && Over(c, S) && CloseTransitive(S)
    requires Equals(a, b) && Equals(b, c)
    ensures Equals(a, c)
    decreases a
  {
    match (a, b, c) {
      case (Array(xs), Array(ys), Array(zs)) =>
        forall i | 0 <= i < |xs| ensures Equals(xs[i], zs[i]) { EqualsTransitive(xs[i], ys[i], zs[i], S); }
      case (Object(xs), Object(ys), Object(zs)) => TransitiveObjects(xs, ys, zs, S);
      case (Number(x), Number(y), Number(z)) => assert Close(x, y) && Close(y, z);
      case _ =>
    }
  }

  lemma {:induction false} TransitiveObjects(xs: seq<Member>, ys: seq<Member>, zs: seq<Member>, S: iset<real>)
    requires Over(Object(xs), S) && Over(Object(ys), S) && Over(Object(zs), S) && CloseTransitive(S)
    requires Equals(Object(xs), Object(ys)) && Equals(Object(ys), Object(zs))
    ensures Equals(Object(xs), Object(zs))
    decreases xs
  {
    hide Equals, CloseTransitive;
    EqualObjects(xs, ys);
    EqualObjects(ys, zs);
    forall k | HasName(xs, k)
      ensures HasName(zs, k) && EqualsAt(xs, zs, k)
    {
      assert HasName(xs, k) == HasName(ys, k) && EqualsAt(xs, ys, k);
      assert HasName(ys, k) == HasName(zs, k) && EqualsAt(ys, zs, k);
      LookupOver(xs, k, S);
      LookupOver(ys, k, S);
      LookupOver(zs, k, S);
      TransitiveMember(xs[IndexOf(xs, k)], ys[IndexOf(ys, k)], Lookup(zs, k).value, S);
    }
    forall k ensures HasName(xs, k) == HasName(zs, k) {
      assert HasName(xs, k) == HasName(ys, k) && HasName(ys, k) == HasName(zs, k);
    }
    EqualObjects(xs, zs);
  }

  lemma {:induction false} TransitiveMember(m: Member, n: Member, w: Value, S: iset<real>)
    requires Over(m.value, S) && Over(n.value, S) && Over(w, S) && CloseTransitive(S)
    requires EqualsMember(m, n.value) && EqualsMember(n, w)
    ensures EqualsMember(m, w)
    decreases m
  {
    EqualsTransitive(m.value, n.value, w, S);
  }

  /** Equality is transitive on the values over a set of numbers exactly when closeness is on these numbers. */
  lemma EqualsTransitiveExactly(S: iset<real>)
    ensures CloseTransitive(S) <==>
              forall a, b, c :: Over(a, S) && Over(b, S) && Over(c, S) && Equals(a, b) && Equals(b, c) ==> Equals(a, c)
  {
    if CloseTransitive(S) {
      forall a, b, c | Over(a, S) && Over(b, S) && Over(c, S) && Equals(a, b) && Equals(b, c) ensures Equals(a, c) {
        EqualsTransitive(a, b, c, S);
      }
    } else {
      var x, y, z :| x in S && y in S && z in S && Close(x, y) && Close(y, z) && !Close(x, z);
      assert Over(Number(x), S) && Over(Number(y), S) && Over(Number(z), S);
      assert Equals(Number(x), Number(y)) && Equals(Number(y), Number(z)) && !Equals(Number(x), Number(z));
    }
  }

  ghost function Integers(): iset<real> {
    iset x: real | x == x.Floor as real
  }

  lemma {:induction false} IntegerNumbersIn(v: Value)
    requires IntegerNumbers(v)
    ensures NumbersIn(v, Integers())
    decreases v
  {
    match v {
      case Array(items) => forall i | 0 <= i < |items| { IntegerNumbersIn(items[i]); }
      case Object(ms) => forall i | 0 <= i < |ms| { IntegerNumbersIn(ms[i].value); }
      case _ =>
    }
  }

  /** On trees of integers equality is transitive. */
  lemma {:induction false} IntegersTransitive(a: Value, b: Value, c: Value)
    requires WellFormed(a) && WellFormed(b) && WellFormed(c)
    requires IntegerNumbers(a) && IntegerNumbers(b) && IntegerNumbers(c)
    requires Equals(a, b) && Equals(b, c)
    ensures Equals(a, c)
  {
    var S := Integers();
    forall x, y, z | x in S && y in S && z in S && Close(x, y) && Close(y, z) ensures Close(x, z) {
      assert -1.0 < (x.Floor - y.Floor) as real < 1.0;
    }
    IntegerNumbersIn(a);
    IntegerNumbersIn(b);
    IntegerNumbersIn(c);
    EqualsTransitive(a, b, c, S);
  }

  /** Three numbers that are no cluster: each is close to the next, the first and the last are not. */
  lemma EqualsNotTransitive()
    ensures var (a, b, c) := (Number(0.0), Number(0.0000006), Number(0.0000012));
            Equals(a, b) && Equals(b, c) && !Equals(a, c)
    ensures !CloseTransitive(iset{0.0, 0.0000006, 0.0000012})
  {
    assert Close(0.0, 0.0000006) && Close(0.0000006, 0.0000012) && !Close(0.0, 0.0000012);
  }

  // ----- copies

  /** json_value_deep_copy: objects are rebuilt by adding a copy of what each name looks up. */
  function DeepCopy(v: Value): Option<Value>
    decreases v, 1
  {
    match v
    case Array(xs) => var r := CopyItems(xs); if r.Some? then Some(Array(r.value)) else None
    case Object(ms) => var r := CopyMembers(ms, |ms|); if r.Some? then Some(Object(r.value)) else None
    case _ => Some(v)
  }

  function CopyItems(xs: seq<Value>): Option<seq<Value>>
    decreases xs, 0
  {
    if |xs| == 0 then Some([])
    else
      var x, rest := DeepCopy(xs[0]), CopyItems(xs[1..]);
      if x.Some? && rest.Some? then Some([x.value] + rest.value) else None
  }

  /** The copy after the first `n` turns of the loop. */
  function CopyMembers(ms: seq<Member>, n: nat): Option<seq<Member>>
    requires n <= |ms|
    decreases ms, 0, n
  {
    if n == 0 then Some([])
    else
      var name := ms[n - 1].name;
      var done := CopyMembers(ms, n - 1);
      var i := IndexOf(ms, name);
      if done.None? || i == |ms| then None
      else
        var w := CopyMember(ms[i]);
        if w.Some? then AddMember(done.value, name, w.value) else None
  }

  function CopyMember(m: Member): Option<Value>
    decreases m, 0
  {
    DeepCopy(m.value)
  }

  /** No object on any level repeats a name. */
  ghost predicate NoRepeats(v: Value)
    decreases v
  {
    match v
    case Array(xs) => forall i :: 0 <= i < |xs| ==> NoRepeats(xs[i])
    case Object(ms) => Distinct(ms) && forall i :: 0 <= i < |ms| ==> NoRepeats(ms[i].value)
    case _ => true
  }

  /** A deep copy is its source, with the same member order. */
  lemma {:induction false} CopyIsSource(v: Value)
    requires NoRepeats(v)
    ensures DeepCopy(v) == Some(v)
    decreases v, 1
  {
    match v {
      case Array(xs) => CopyItemsIsSource(xs);
      case Object(ms) =>
        CopyMembersIsSource(ms, |ms|);
        assert ms[..|ms|] == ms;
      case _ =>
    }
  }

  lemma {:induction false} CopyItemsIsSource(xs: seq<Value>)
    requires forall i :: 0 <= i < |xs| ==> NoRepeats(xs[i])
    ensures CopyItems(xs) == Some(xs)
    decreases xs, 0
  {
    if |xs| > 0 {
      CopyIsSource(xs[0]);
      CopyItemsIsSource(xs[1..]);
      assert xs == [xs[0]] + xs[1..];
    }
  }

  lemma {:induction false} CopyMembersIsSource(ms: seq<Member>, n: nat)
    requires n <= |ms| && Distinct(ms) && forall i :: 0 <= i < |ms| ==> NoRepeats(ms[i].value)
    ensures CopyMembers(ms, n) == Some(ms[..n])
    decreases ms, 0, n
  {
    hide DeepCopy, CopyItems, CopyMember, NoRepeats;
    if n > 0 {
      CopyMembersIsSource(ms, n - 1);
      NextIsAdded(ms, n - 1);
      CopyMemberIsSource(ms[n - 1]);
    }
  }

  /** A member with a name of its own is found at its place, and added behind the members in front of it. */
  lemma NextIsAdded(ms: seq<Member>, k: nat)
    requires k < |ms| && Distinct(ms)
    ensures IndexOf(ms, ms[k].name) == k
    ensures AddMember(ms[..k], ms[k].name, ms[k].value) == Some(ms[..k + 1])
  {
    LookupAt(ms, k);
    assert ms[..k + 1] == ms[..k] + [ms[k]];
    assert !HasName(ms[..k], ms[k].name);
  }

  lemma {:induction false} CopyMemberIsSource(m: Member)
    requires NoRepeats(m.value)
    ensures CopyMember(m) == Some(m.value)
    decreases m, 0
  {
    CopyIsSource(m.value);
  }

  lemma {:induction false} WellFormedHasNoRepeats(v: Value)
    requires WellFormed(v)
    ensures NoRepeats(v)
    decreases v
  {
    match v {
      case Array(xs) => forall i | 0 <= i < |xs| { WellFormedHasNoRepeats(xs[i]); }
      case Object(ms) => forall i | 0 <= i < |ms| { WellFormedHasNoRepeats(ms[i].value); }
      case _ =>
    }
  }

  /** For what a table can hold, the copy exists, is the source, and compares equal to it. */
  lemma CopyEqualsSource(v: Value)
    requires WellFormed(v)
    ensures DeepCopy(v) == Some(v) && Equals(DeepCopy(v).value, v)
  {
    WellFormedHasNoRepeats(v);
    CopyIsSource(v);
    EqualsReflexive(v);
  }
}
