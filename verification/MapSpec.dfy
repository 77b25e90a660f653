/** The outcome of a lookup by key: Go's comma-ok read of a map. */
module Lookups {
  import opened Bytes

  datatype Lookup = Missing | Found(value: Value)

  function Find(m: map<Key, Value>, key: Key): Lookup {
    if key in m then Found(m[key]) else Missing
  }
}

/** The ordered store contract: what every store owes its callers, stated over a plain map. */
module MapSpec {
  import opened Bytes
  import opened Lookups

  datatype Op =
    | Set(key: Key, value: Value)
    | Del(key: Key)
    | Get(key: Key)
    | PrefixKeys(prefix: Key)
    | RangeKeys(start: Key, end: Key)

  datatype Reply = Done | Value(lookup: Lookup) | Keys(keys: seq<Key>)

  function After(m: map<Key, Value>, op: Op): map<Key, Value> {
    match op
    case Set(k, v) => m[k := v]
    case Del(k) => m - {k}
    case _ => m
  }

  /** The reply a plain map gives: scans list exactly the wanted keys, in ascending order. */
  ghost predicate Correct(m: map<Key, Value>, op: Op, r: Reply) {
    match op
    case Set(_, _) => r == Done
    case Del(_) => r == Done
    case Get(k) => r == Value(Find(m, k))
    case PrefixKeys(p) => r.Keys? && Ascending(r.keys) && forall k :: k in r.keys <==> k in m && p <= k
    case RangeKeys(s, e) =>
      r.Keys? && Ascending(r.keys) && forall k :: k in r.keys <==> k in m && AtMost(s, k) && AtMost(k, e)
  }

  ghost predicate RunCorrect(m: map<Key, Value>, ops: seq<Op>, rs: seq<Reply>)
    decreases ops
  {
    |rs| == |ops| &&
    (ops != [] ==> Correct(m, ops[0], rs[0]) && RunCorrect(After(m, ops[0]), ops[1..], rs[1..]))
  }

  function AfterAll(m: map<Key, Value>, ops: seq<Op>): map<Key, Value>
    decreases ops
  {
    if ops == [] then m else AfterAll(After(m, ops[0]), ops[1..])
  }

  /** One more operation at the end of a run. */
  lemma {:induction false} RunExtends(m: map<Key, Value>, ops: seq<Op>, rs: seq<Reply>, op: Op, r: Reply)
    requires RunCorrect(m, ops, rs) && Correct(AfterAll(m, ops), op, r)
    ensures RunCorrect(m, ops + [op], rs + [r])
    ensures AfterAll(m, ops + [op]) == After(AfterAll(m, ops), op)
    decreases ops
  {
    if ops == [] {
      assert ops + [op] == [op] && rs + [r] == [r];
    } else {
      RunExtends(After(m, ops[0]), ops[1..], rs[1..], op, r);
      assert (ops + [op])[1..] == ops[1..] + [op] && (rs + [r])[1..] == rs[1..] + [r];
    }
  }

  /** The replies to a run are determined: two stores that keep the contract cannot be told apart. */
  lemma {:induction false} RunDetermined(m: map<Key, Value>, ops: seq<Op>, rs: seq<Reply>, rs': seq<Reply>)
    requires RunCorrect(m, ops, rs) && RunCorrect(m, ops, rs')
    ensures rs == rs'
    decreases ops
  {
    if ops != [] {
      ReplyDetermined(m, ops[0], rs[0], rs'[0]);
      RunDetermined(After(m, ops[0]), ops[1..], rs[1..], rs'[1..]);
      assert rs == [rs[0]] + rs[1..] && rs' == [rs'[0]] + rs'[1..];
    }
  }

  lemma ReplyDetermined(m: map<Key, Value>, op: Op, r: Reply, r': Reply)
    requires Correct(m, op, r) && Correct(m, op, r')
    ensures r == r'
  {
    if r.Keys? {
      AscendingUnique(r.keys, r'.keys);
    }
  }
}
