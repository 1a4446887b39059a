/** picojson's value tree. */
module JsonValue {
  import opened Bytes

  const INT64_MIN := -0x8000_0000_0000_0000
  const INT64_MAX := 0x7fff_ffff_ffff_ffff

  /** `Real` stands for the double that `strtod` reads from its literal. */
  datatype Value =
    | Null
    | Bool(b: bool)
    | Int(i: int)
    | Real(literal: bytes)
    | Str(s: bytes)
    | Array(items: seq<Value>)
    | Object(members: seq<Member>)

  datatype Member = Member(key: bytes, value: Value)

  /** A `std::map` holds each key once, in order. */
  predicate SortedKeys(members: seq<Member>) {
    forall i, j | 0 <= i < j < |members| :: Less(members[i].key, members[j].key)
  }

  /** `o[key] = value`. */
  function Put(members: seq<Member>, key: bytes, value: Value): (r: seq<Member>) {
    if members == [] || Less(key, members[0].key) then [Member(key, value)] + members
    else if members[0].key == key then [Member(key, value)] + members[1..]
    else [members[0]] + Put(members[1..], key, value)
  }

  predicate Has(members: seq<Member>, key: bytes, value: Value) {
    Member(key, value) in members
  }

  /** `Put` is a map update: it keeps the order, stores the value and touches no other key. */
  lemma {:induction false} PutUpdatesMap(members: seq<Member>, key: bytes, value: Value)
    requires SortedKeys(members)
    ensures SortedKeys(Put(members, key, value))
    ensures forall k, v :: Has(Put(members, key, value), k, v) <==>
                           (if k == key then v == value else Has(members, k, v))
  {
    if members != [] {
      LessIsTotal(key, members[0].key);
      if Less(key, members[0].key) {
        LessIsAsymmetric(key, members[0].key);
        forall j | 0 <= j < |members| ensures Less(key, members[j].key) && members[j].key != key {
          if j > 0 {
            LessIsTransitive(key, members[0].key, members[j].key);
          }
          LessIsAsymmetric(key, members[j].key);
        }
      } else if members[0].key == key {
        forall j | 0 < j < |members| ensures members[j].key != key {
          LessIsAsymmetric(members[0].key, members[j].key);
        }
        assert members == [members[0]] + members[1..];
      } else {
        PutUpdatesMap(members[1..], key, value);
        var r := Put(members[1..], key, value);
        forall m | m in r ensures Less(members[0].key, m.key) {
          assert Has(r, m.key, m.value);
        }
        forall k, v
          ensures Has([members[0]] + r, k, v) <==> (if k == key then v == value else Has(members, k, v))
        {
          assert members == [members[0]] + members[1..];
          assert Has([members[0]] + r, k, v) <==> Member(k, v) == members[0] || Has(r, k, v);
        }
      }
    }
  }

  /** A key above all others is appended. */
  lemma {:induction false} PutLast(members: seq<Member>, key: bytes, value: Value)
    requires forall i | 0 <= i < |members| :: Less(members[i].key, key)
    ensures Put(members, key, value) == members + [Member(key, value)]
  {
    if members != [] {
      LessIsAsymmetric(members[0].key, key);
      PutLast(members[1..], key, value);
    }
  }

  /** What every tree in memory satisfies: 64-bit integers and sorted, distinct keys. */
  predicate WellFormed(v: Value) {
    match v
    case Int(i) => INT64_MIN <= i <= INT64_MAX
    case Array(items) => forall i | 0 <= i < |items| :: WellFormed(items[i])
    case Object(members) => SortedKeys(members) && forall i | 0 <= i < |members| :: WellFormed(members[i].value)
    case _ => true
  }

  /** No floating-point number anywhere in the tree. */
  predicate RealFree(v: Value) {
    match v
    case Real(_) => false
    case Array(items) => forall i | 0 <= i < |items| :: RealFree(items[i])
    case Object(members) => forall i | 0 <= i < |members| :: RealFree(members[i].value)
    case _ => true
  }

  // ---------- the depth budget ----------

  /** Whether a parse context with this budget accepts the tree: an array spends one, an object only needs one. */
  predicate Fits(v: Value, depths: nat) {
    match v
    case Array(items) => depths > 0 && forall i | 0 <= i < |items| :: Fits(items[i], depths - 1)
    case Object(members) => depths > 0 && forall i | 0 <= i < |members| :: Fits(members[i].value, depths)
    case _ => true
  }

  predicate IsContainer(v: Value) {
    v.Array? || v.Object?
  }

  function Children(v: Value): seq<Value> {
    match v
    case Array(items) => items
    case Object(members) => seq(|members|, i requires 0 <= i < |members| => members[i].value)
    case _ => []
  }

  /** `path` lists child positions from the root `v` down to a node of the tree. */
  predicate IsPath(v: Value, path: seq<nat>)
    decreases |path|
  {
    path == [] || (path[0] < |Children(v)| && IsPath(Children(v)[path[0]], path[1..]))
  }

  function NodeAt(v: Value, path: seq<nat>): Value
    requires IsPath(v, path)
    decreases |path|
  {
    if path == [] then v else NodeAt(Children(v)[path[0]], path[1..])
  }

  /** How many proper ancestors of the node at `path` are arrays. */
  function ArrayAncestors(v: Value, path: seq<nat>): nat
    requires IsPath(v, path)
    decreases |path|
  {
    if path == [] then 0
    else (if v.Array? then 1 else 0) + ArrayAncestors(Children(v)[path[0]], path[1..])
  }

  /** Every container of the tree has fewer array ancestors than `bound`. */
  ghost predicate FewArrayAncestors(v: Value, bound: nat) {
    forall path: seq<nat> | IsPath(v, path) && IsContainer(NodeAt(v, path)) :: ArrayAncestors(v, path) < bound
  }

  /** The budget is enough exactly when every container has fewer array ancestors than the budget. */
  lemma {:induction false} FitsMeansFewArrayAncestors(v: Value, depths: nat)
    ensures Fits(v, depths) <==> FewArrayAncestors(v, depths)
  {
    if Fits(v, depths) {
      forall path: seq<nat> | IsPath(v, path) && IsContainer(NodeAt(v, path))
        ensures ArrayAncestors(v, path) < depths
      {
        FitsBoundsPath(v, depths, path);
      }
    } else {
      var path := DeepPath(v, depths);
    }
  }

  lemma {:induction false} FitsBoundsPath(v: Value, depths: nat, path: seq<nat>)
    requires Fits(v, depths) && IsPath(v, path) && IsContainer(NodeAt(v, path))
    ensures ArrayAncestors(v, path) < depths
    decreases |path|
  {
    if path != [] {
      FitsBoundsPath(Children(v)[path[0]], if v.Array? then depths - 1 else depths, path[1..]);
    }
  }

  lemma {:induction false} DeepPath(v: Value, depths: nat) returns (path: seq<nat>)
    requires !Fits(v, depths)
    ensures IsPath(v, path) && IsContainer(NodeAt(v, path)) && ArrayAncestors(v, path) >= depths
  {
    path := [];
    if depths > 0 {
      var child;
      var k: nat;
      match v {
        case Array(items) =>
          k :| 0 <= k < |items| && !Fits(items[k], depths - 1);
          child := DeepPath(items[k], depths - 1);
        case Object(members) =>
          k :| 0 <= k < |members| && !Fits(members[k].value, depths);
          child := DeepPath(members[k].value, depths);
      }
      path := [k] + child;
      assert path[1..] == child;
    }
  }
}
