/**
 * JSON values, and an object as the list of its members.
 * The member list is what the hash table in ObjectTable.dfy stores; the functions here say what each
 * table operation does to that list, and the lemmas what the list means as a finite map.
 */
module JsonValue {
  import opened Bytes

  datatype Value =
    | Null
    | Boolean(b: bool)
    | Number(n: real)
    | String(s: bytes)
    | Array(items: seq<Value>)
    | Object(members: seq<Member>)

  datatype Member = Member(name: bytes, value: Value)

  /** No two members share a name. */
  ghost predicate Distinct(ms: seq<Member>) {
    forall i, j :: 0 <= i < j < |ms| ==> ms[i].name != ms[j].name
  }

  predicate HasName(ms: seq<Member>, key: bytes) {
    exists i :: 0 <= i < |ms| && ms[i].name == key
  }

  /** Position of the first member called `key`, or the length when there is none. */
  function IndexOf(ms: seq<Member>, key: bytes): (r: nat)
    ensures r <= |ms|
    ensures r < |ms| ==> ms[r].name == key
    ensures forall i :: 0 <= i < r ==> ms[i].name != key
    ensures r < |ms| <==> HasName(ms, key)
  {
    if |ms| == 0 then 0
    else if ms[0].name == key then 0
    else
      assert forall i :: 1 <= i < |ms| ==> ms[i].name == ms[1..][i - 1].name;
      1 + IndexOf(ms[1..], key)
  }

  function Lookup(ms: seq<Member>, key: bytes): Option<Value> {
    var i := IndexOf(ms, key);
    if i < |ms| then Some(ms[i].value) else None
  }

  /** A new member goes last; an existing name is refused. */
  function AddMember(ms: seq<Member>, key: bytes, v: Value): Option<seq<Member>> {
    if HasName(ms, key) then None else Some(ms + [Member(key, v)])
  }

  /** An existing name keeps its place; a new one goes last. */
  function SetMember(ms: seq<Member>, key: bytes, v: Value): seq<Member> {
    var i := IndexOf(ms, key);
    if i < |ms| then ms[i := Member(key, v)] else ms + [Member(key, v)]
  }

  /** The last member takes the place of the removed one. */
  function RemoveMember(ms: seq<Member>, key: bytes): Option<seq<Member>> {
    var i := IndexOf(ms, key);
    if i < |ms| then Some(SwapOut(ms, i)) else None
  }

  // ----- the member list as a finite map

  ghost function AsMap(ms: seq<Member>): map<bytes, Value> {
    map k | k in (set i | 0 <= i < |ms| :: ms[i].name) :: Lookup(ms, k).value
  }

  lemma LookupIsMap(ms: seq<Member>, key: bytes)
    ensures Lookup(ms, key) == if key in AsMap(ms) then Some(AsMap(ms)[key]) else None
  {
  }

  lemma LookupAt(ms: seq<Member>, i: nat)
    requires Distinct(ms) && i < |ms|
    ensures IndexOf(ms, ms[i].name) == i && Lookup(ms, ms[i].name) == Some(ms[i].value)
  {
  }

  lemma AddIsUpdate(ms: seq<Member>, key: bytes, v: Value)
    requires Distinct(ms)
    ensures AddMember(ms, key, v).None? <==> key in AsMap(ms)
    ensures AddMember(ms, key, v).Some? ==>
              var ms' := AddMember(ms, key, v).value;
              Distinct(ms') && AsMap(ms') == AsMap(ms)[key := v]
  {
    LookupIsMap(ms, key);
    if !HasName(ms, key) {
      SetIsUpdate(ms, key, v);
    }
  }

  lemma SetIsUpdate(ms: seq<Member>, key: bytes, v: Value)
    requires Distinct(ms)
    ensures Distinct(SetMember(ms, key, v))
    ensures AsMap(SetMember(ms, key, v)) == AsMap(ms)[key := v]
  {
    var ms' := SetMember(ms, key, v);
    assert Distinct(ms');
    var i := IndexOf(ms, key);
    forall k
      ensures Lookup(ms', k) == if k == key then Some(v) else Lookup(ms, k)
    {
      if k == key {
        LookupAt(ms', i);
      } else if HasName(ms, k) {
        var j := IndexOf(ms, k);
        assert ms'[j] == ms[j];
        LookupAt(ms', j);
      }
      LookupIsMap(ms', k);
      LookupIsMap(ms, k);
    }
    MapsAgree(ms', AsMap(ms)[key := v]);
  }

  lemma RemoveIsErase(ms: seq<Member>, key: bytes)
    requires Distinct(ms)
    ensures RemoveMember(ms, key).Some? <==> key in AsMap(ms)
    ensures RemoveMember(ms, key).Some? ==>
              var ms' := RemoveMember(ms, key).value;
              Distinct(ms') && AsMap(ms') == AsMap(ms) - {key}
  {
    LookupIsMap(ms, key);
    var i, last := IndexOf(ms, key), |ms| - 1;
    if i < |ms| {
      var ms' := RemoveMember(ms, key).value;
      RemovedLookup(ms, i, ms', key);
      var m := AsMap(ms) - {key};
      forall k
        ensures Lookup(ms', k) == if k in m then Some(m[k]) else None
      {
        LookupIsMap(ms, k);
      }
      MapsAgree(ms', m);
    }
  }

  lemma RemovedLookup(ms: seq<Member>, i: nat, ms': seq<Member>, key: bytes)
    requires Distinct(ms) && i < |ms| && ms[i].name == key && |ms'| == |ms| - 1
    requires forall j :: 0 <= j < |ms'| ==> ms'[j] == if j == i then ms[|ms| - 1] else ms[j]
    ensures Distinct(ms')
    ensures forall k :: Lookup(ms', k) == if k == key then None else Lookup(ms, k)
  {
  }

  lemma MapsAgree(ms: seq<Member>, m: map<bytes, Value>)
    requires forall k :: Lookup(ms, k) == if k in m then Some(m[k]) else None
    ensures AsMap(ms) == m
  {
  }

  // ----- runs of table operations

  datatype TableOp =
    | Add(key: bytes, value: Value)
    | Set(key: bytes, value: Value)
    | Remove(key: bytes)
    | Clear

  function ApplyOp(ms: seq<Member>, op: TableOp): seq<Member> {
    match op
    case Add(k, v) => if AddMember(ms, k, v).Some? then AddMember(ms, k, v).value else ms
    case Set(k, v) => SetMember(ms, k, v)
    case Remove(k) => if RemoveMember(ms, k).Some? then RemoveMember(ms, k).value else ms
    case Clear => []
  }

  function RunOps(ms: seq<Member>, ops: seq<TableOp>): seq<Member> {
    if |ops| == 0 then ms else ApplyOp(RunOps(ms, ops[..|ops| - 1]), ops[|ops| - 1])
  }

  /** The same operation on the map a caller has in mind: adding never overwrites. */
  ghost function MapOp(m: map<bytes, Value>, op: TableOp): map<bytes, Value> {
    match op
    case Add(k, v) => if k in m then m else m[k := v]
    case Set(k, v) => m[k := v]
    case Remove(k) => m - {k}
    case Clear => map[]
  }

  ghost function RunMap(m: map<bytes, Value>, ops: seq<TableOp>): map<bytes, Value> {
    if |ops| == 0 then m else MapOp(RunMap(m, ops[..|ops| - 1]), ops[|ops| - 1])
  }

  /** Over every run of operations, lookup agrees with the abstract map. */
  lemma {:induction false} RunAgreesWithMap(ms: seq<Member>, ops: seq<TableOp>)
    requires Distinct(ms)
    ensures Distinct(RunOps(ms, ops))
    ensures AsMap(RunOps(ms, ops)) == RunMap(AsMap(ms), ops)
    ensures forall key :: Lookup(RunOps(ms, ops), key) ==
                          if key in RunMap(AsMap(ms), ops) then Some(RunMap(AsMap(ms), ops)[key]) else None
  {
    if |ops| > 0 {
      RunAgreesWithMap(ms, ops[..|ops| - 1]);
      var before, op := RunOps(ms, ops[..|ops| - 1]), ops[|ops| - 1];
      match op
      case Add(k, v) => AddIsUpdate(before, k, v);
      case Set(k, v) => SetIsUpdate(before, k, v);
      case Remove(k) => RemoveIsErase(before, k); assert k !in AsMap(before) ==> AsMap(before) - {k} == AsMap(before);
      case Clear => assert AsMap([]) == map[];
    }
    forall key { LookupIsMap(RunOps(ms, ops), key); }
  }
}
