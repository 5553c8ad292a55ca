/** Dotted addressing of nested objects: reading, and writing that creates what is missing on the way. */
module DottedPaths {
  import opened Bytes
  import opened JsonValue
  import opened JsonText

  const DOT: byte := 0x2E

  /** Position of the first dot, or the length when there is none. */
  function DotPosition(path: bytes): (d: nat)
    ensures d <= |path| && (d < |path| ==> path[d] == DOT)
    ensures forall i :: 0 <= i < d ==> path[i] != DOT
  {
    if |path| == 0 || path[0] == DOT then 0
    else
      assert forall i :: 1 <= i < |path| ==> path[i] == path[1..][i - 1];
      1 + DotPosition(path[1..])
  }

  /** json_object_dotget_value */
  function DotGet(ms: seq<Member>, path: bytes): Option<Value>
    decreases |path|
  {
    var d := DotPosition(path);
    if d == |path| then Lookup(ms, path)
    else
      var v := Lookup(ms, path[..d]);
      if v.Some? && v.value.Object? then DotGet(v.value.members, path[d + 1..]) else None
  }

  /** json_object_dotset_value; `owned` says that the value belongs to an array or an object already. */
  function DotSet(ms: seq<Member>, path: bytes, v: Value, owned: bool): Option<seq<Member>>
    decreases |path|
  {
    var d := DotPosition(path);
    if d == |path| then (if owned then None else Some(SetMember(ms, path, v)))
    else
      var key, rest := path[..d], path[d + 1..];
      match Lookup(ms, key)
      case Some(Object(inner)) =>
        (match DotSet(inner, rest, v, owned)
         case None => None
         case Some(inner') => Some(SetMember(ms, key, Object(inner'))))
      case Some(_) => None
      case None =>
        match DotSet([], rest, v, owned)
        case None => None
        case Some(inner') => AddMember(ms, key, Object(inner'))
  }

  // ----- paths as sequences of names

  function Names(path: bytes): (names: seq<bytes>)
    ensures |names| > 0
    decreases |path|
  {
    var d := DotPosition(path);
    if d == |path| then [path] else [path[..d]] + Names(path[d + 1..])
  }

  function Get(ms: seq<Member>, names: seq<bytes>): Option<Value>
    requires |names| > 0
  {
    var v := Lookup(ms, names[0]);
    if |names| == 1 then v
    else if v.Some? && v.value.Object? then Get(v.value.members, names[1..])
    else None
  }

  lemma {:induction false} DotGetByNames(ms: seq<Member>, path: bytes)
    ensures DotGet(ms, path) == Get(ms, Names(path))
    decreases |path|
  {
    var d := DotPosition(path);
    if d < |path| {
      var v := Lookup(ms, path[..d]);
      assert Names(path)[1..] == Names(path[d + 1..]);
      if v.Some? && v.value.Object? {
        DotGetByNames(v.value.members, path[d + 1..]);
      }
    }
  }

  /** Whatever the path creates on the way, the step from one member list to the next is an update of the first name. */
  lemma DotSetStep(ms: seq<Member>, path: bytes, v: Value, owned: bool)
    requires DotSet(ms, path, v, owned).Some?
    ensures var d, ms' := DotPosition(path), DotSet(ms, path, v, owned).value;
            if d == |path| then ms' == SetMember(ms, path, v)
            else
              var key, rest := path[..d], path[d + 1..];
              var first := Lookup(ms, key);
              var inner := if first.Some? && first.value.Object? then first.value.members else [];
              && (first.Some? ==> first.value.Object?)
              && DotSet(inner, rest, v, owned).Some?
              && ms' == SetMember(ms, key, Object(DotSet(inner, rest, v, owned).value))
  {
  }

  lemma LookupSet(ms: seq<Member>, key: bytes, v: Value, k: bytes)
    requires Distinct(ms)
    ensures Distinct(SetMember(ms, key, v))
    ensures Lookup(SetMember(ms, key, v), k) == if k == key then Some(v) else Lookup(ms, k)
  {
    SetIsUpdate(ms, key, v);
    LookupIsMap(ms, k);
    LookupIsMap(SetMember(ms, key, v), k);
  }

  /** Every object on every level has distinct names. */
  ghost predicate Tidy(ms: seq<Member>) {
    WellFormed(Object(ms))
  }

  lemma TidyInner(ms: seq<Member>, key: bytes)
    requires Tidy(ms)
    ensures Distinct(ms)
    ensures Lookup(ms, key).Some? && Lookup(ms, key).value.Object? ==> Tidy(Lookup(ms, key).value.members)
  {
  }

  /** Where two paths part: neither leads along the other. */
  predicate Apart(p: seq<bytes>, q: seq<bytes>) {
    exists i :: 0 <= i < |p| && i < |q| && p[i] != q[i]
  }

  /** What the path `q` resolves to, before and after `v` was set at the path `p`. */
  ghost predicate Effect(ms: seq<Member>, ms': seq<Member>, p: seq<bytes>, v: Value, q: seq<bytes>)
    requires |q| > 0
  {
    && (q == p ==> Get(ms', q) == Some(v))
    && (p < q ==> Get(ms', q) == if v.Object? then Get(v.members, q[|p|..]) else None)
    && (q < p ==> Get(ms', q).Some? && Get(ms', q).value.Object?)
    && (Apart(p, q) ==> Get(ms', q) == Get(ms, q))
  }

  lemma EffectHere(ms: seq<Member>, key: bytes, v: Value, q: seq<bytes>)
    requires Distinct(ms) && |q| > 0
    ensures Effect(ms, SetMember(ms, key, v), [key], v, q)
  {
    LookupSet(ms, key, v, q[0]);
    assert [key] < q ==> q[0] == key;
    assert Apart([key], q) <==> q[0] != key;
  }

  lemma EffectInside(ms: seq<Member>, key: bytes, inner: seq<Member>, inner': seq<Member>, names: seq<bytes>, v: Value,
                     q: seq<bytes>)
    requires Distinct(ms) && |q| > 0 && |names| > 0
    requires if Lookup(ms, key).Some? then Lookup(ms, key).value == Object(inner) else inner == []
    requires |q| > 1 && q[0] == key ==> Effect(inner, inner', names, v, q[1..])
    ensures Effect(ms, SetMember(ms, key, Object(inner')), [key] + names, v, q)
  {
    var p := [key] + names;
    LookupSet(ms, key, Object(inner'), q[0]);
    if q[0] != key {
      assert p[0] != q[0] && Apart(p, q);
    } else if |q| == 1 {
      assert !Apart(p, q);
    } else {
      assert p[1..] == names;
      TailRelation(p, q);
      if Lookup(ms, key).None? {
        NothingInside(q[1..]);
      }
    }
  }

  /**
   * The whole effect of a successful set: the path itself gives the new value; a longer path looks inside the new
   * value; a shorter one finds an object; every path that parts from it is untouched.
   */
  lemma {:induction false} DotSetEffect(ms: seq<Member>, path: bytes, v: Value, owned: bool, q: seq<bytes>)
    requires Tidy(ms) && |q| > 0 && DotSet(ms, path, v, owned).Some?
    ensures Effect(ms, DotSet(ms, path, v, owned).value, Names(path), v, q)
    decreases |path|
  {
    hide Effect, Get, Apart;
    DotSetStep(ms, path, v, owned);
    var d := DotPosition(path);
    if d == |path| {
      TidyInner(ms, path);
      EffectHere(ms, path, v, q);
    } else {
      var key, rest := path[..d], path[d + 1..];
      TidyInner(ms, key);
      var inner := if Lookup(ms, key).Some? then Lookup(ms, key).value.members else [];
      var inner' := DotSet(inner, rest, v, owned).value;
      if |q| > 1 {
        DotSetEffect(inner, rest, v, owned, q[1..]);
      }
      EffectInside(ms, key, inner, inner', Names(rest), v, q);
    }
  }

  lemma NothingInside(q: seq<bytes>)
    requires |q| > 0
    ensures Get([], q) == None
  {
  }

  lemma TailRelation(p: seq<bytes>, q: seq<bytes>)
    requires |p| > 1 && |q| > 1 && p[0] == q[0]
    ensures q == p <==> q[1..] == p[1..]
    ensures p < q <==> p[1..] < q[1..]
    ensures q < p <==> q[1..] < p[1..]
    ensures p < q ==> q[|p|..] == q[1..][|p[1..]|..]
    ensures Apart(p, q) ==> Apart(p[1..], q[1..])
  {
  }

  /** Setting keeps every level of the tree free of repeated names and of names with a NUL. */
  lemma {:induction false} DotSetStaysTidy(ms: seq<Member>, path: bytes, v: Value, owned: bool)
    requires Tidy(ms) && WellFormed(v) && NulFree(path) && DotSet(ms, path, v, owned).Some?
    ensures Tidy(DotSet(ms, path, v, owned).value)
    decreases |path|
  {
    DotSetStep(ms, path, v, owned);
    var d := DotPosition(path);
    if d == |path| {
      SetStaysTidy(ms, path, v);
    } else {
      var key, rest := path[..d], path[d + 1..];
      TidyInner(ms, key);
      var inner := if Lookup(ms, key).Some? then Lookup(ms, key).value.members else [];
      DotSetStaysTidy(inner, rest, v, owned);
      SetStaysTidy(ms, key, Object(DotSet(inner, rest, v, owned).value));
    }
  }

  lemma SetStaysTidy(ms: seq<Member>, key: bytes, v: Value)
    requires Tidy(ms) && NulFree(key) && WellFormed(v)
    ensures Tidy(SetMember(ms, key, v))
  {
    SetIsUpdate(ms, key, v);
  }

  /** A proper, non-empty part of the way ends at a value that is no object. */
  ghost predicate Blocked(ms: seq<Member>, names: seq<bytes>) {
    exists k :: 0 < k < |names| && Get(ms, names[..k]).Some? && !Get(ms, names[..k]).value.Object?
  }

  /** A set fails exactly when the value has a place already, or some value that is no object stands in the way. */
  lemma {:induction false} DotSetFails(ms: seq<Member>, path: bytes, v: Value, owned: bool)
    ensures DotSet(ms, path, v, owned).None? <==> owned || Blocked(ms, Names(path))
    decreases |path|
  {
    var d, p := DotPosition(path), Names(path);
    if d < |path| {
      hide Blocked, Lookup;
      var key, rest := path[..d], path[d + 1..];
      var first := Lookup(ms, key);
      var inner := if first.Some? && first.value.Object? then first.value.members else [];
      assert p[1..] == Names(rest);
      DotSetFails(inner, rest, v, owned);
      if first.None? || first.value.Object? {
        BlockedInside(ms, p, inner);
        NewMember(ms, key);
      } else {
        BlockedHere(ms, p, first.value);
      }
    }
  }

  lemma NewMember(ms: seq<Member>, key: bytes)
    ensures Lookup(ms, key).None? ==> AddMember(ms, key, Object([])).Some?
  {
  }

  lemma BlockedHere(ms: seq<Member>, p: seq<bytes>, first: Value)
    requires |p| > 1 && Lookup(ms, p[0]) == Some(first) && !first.Object?
    ensures Blocked(ms, p)
  {
    assert p[..1] == [p[0]] && Get(ms, p[..1]) == Some(first);
  }

  lemma BlockedInside(ms: seq<Member>, p: seq<bytes>, inner: seq<Member>)
    requires |p| > 1
    requires var first := Lookup(ms, p[0]);
             if first.Some? then first.value == Object(inner) else inner == []
    ensures Blocked(ms, p) <==> Blocked(inner, p[1..])
  {
    if k :| 0 < k < |p| && Get(ms, p[..k]).Some? && !Get(ms, p[..k]).value.Object? {
      assert p[..k][1..] == p[1..][..k - 1];
    }
    if k :| 0 < k < |p[1..]| && Get(inner, p[1..][..k]).Some? && !Get(inner, p[1..][..k]).value.Object? {
      assert p[..k + 1][1..] == p[1..][..k];
      assert inner != [] by { NothingInside(p[1..][..k]); }
      assert Get(ms, p[..k + 1]) == Get(inner, p[1..][..k]);
    }
  }

  /** The laws in terms of dotted text: read back what was set, and leave every path alone that parts from it. */
  lemma {:induction false} DotSetThenGet(ms: seq<Member>, path: bytes, v: Value, owned: bool)
    requires Tidy(ms) && DotSet(ms, path, v, owned).Some?
    ensures DotGet(DotSet(ms, path, v, owned).value, path) == Some(v)
    ensures forall q :: Apart(Names(path), Names(q)) ==> DotGet(DotSet(ms, path, v, owned).value, q) == DotGet(ms, q)
  {
    var ms' := DotSet(ms, path, v, owned).value;
    DotGetByNames(ms', path);
    DotSetEffect(ms, path, v, owned, Names(path));
    forall q | Apart(Names(path), Names(q))
      ensures DotGet(ms', q) == DotGet(ms, q)
    {
      DotGetByNames(ms', q);
      DotGetByNames(ms, q);
      DotSetEffect(ms, path, v, owned, Names(q));
    }
  }
}
