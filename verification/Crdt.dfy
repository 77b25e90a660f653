/** The last-writer-wins store: replicas that take timestamped writes and merge with each other. */
module Crdt {
  import opened Bytes
  import opened Tables

  const TWO64: nat := 0x1_0000_0000_0000_0000

  type Time = n: nat | n < TWO64

  datatype Stamped = Stamped(value: Value, ts: Time)

  type Data = map<Key, Stamped>

  datatype Write = Write(key: Key, value: Value, ts: Time)

  function Entry(w: Write): Stamped {
    Stamped(w.value, w.ts)
  }

  /** A write wins over an absent key and over strictly smaller timestamps. */
  function Put(d: Data, w: Write): Data {
    if w.key !in d || w.ts > d[w.key].ts then d[w.key := Entry(w)] else d
  }

  /** The data after a merge: on equal timestamps the receiver keeps its own value. */
  function Join(d: Data, e: Data): Data {
    map k | k in d.Keys + e.Keys :: if k !in e || (k in d && e[k].ts <= d[k].ts) then d[k] else e[k]
  }

  /** `nextTS` on 64 bits. */
  function Tick(clock: Time): Time {
    (clock + 1) % TWO64
  }

  ghost function MaxOf(c: Time, s: set<Time>): (m: Time)
    ensures c <= m && (forall x :: x in s ==> x <= m) && (m == c || m in s)
  {
    if s == {} then c
    else
      var x :| x in s;
      var m := MaxOf(c, s - {x});
      assert forall y :: y in s ==> y == x || y in s - {x};
      if x > m then x else m
  }

  ghost function Raise(c: Time, d: Data): Time {
    MaxOf(c, set k | k in d :: d[k].ts)
  }

  // ----- everything that can have happened to a replica

  datatype Replica = Replica(data: Data, clock: Time)

  /** Writes with a timestamp, local writes, merges and deletions, in any order, nested and repeated at will. */
  datatype History =
    | New
    | Remote(past: History, w: Write)
    | Local(past: History, key: Key, value: Value)
    | Merged(past: History, other: History)
    | Removed(past: History, key: Key)

  function LocalWrite(r: Replica, key: Key, value: Value): Write {
    Write(key, value, Tick(r.clock))
  }

  ghost function State(h: History): Replica {
    match h
    case New => Replica(map[], 0)
    case Remote(past, w) => Replica(Put(State(past).data, w), MaxOf(State(past).clock, {w.ts}))
    case Local(past, key, value) =>
      var w := LocalWrite(State(past), key, value);
      Replica(State(past).data[key := Entry(w)], w.ts)
    case Merged(past, other) =>
      Replica(Join(State(past).data, State(other).data), Raise(State(past).clock, State(other).data))
    case Removed(past, key) => Replica(State(past).data - {key}, State(past).clock)
  }

  /** The writes that reached a replica, directly or through merges. */
  ghost function Absorbed(h: History): set<Write> {
    match h
    case New => {}
    case Remote(past, w) => Absorbed(past) + {w}
    case Local(past, key, value) => Absorbed(past) + {LocalWrite(State(past), key, value)}
    case Merged(past, other) => Absorbed(past) + Absorbed(other)
    case Removed(past, _) => Absorbed(past)
  }

  /** No local write came when the clock was at its end, and nothing was deleted. */
  ghost predicate Steady(h: History) {
    match h
    case New => true
    case Remote(past, _) => Steady(past)
    case Local(past, _, _) => Steady(past) && State(past).clock + 1 < TWO64
    case Merged(past, other) => Steady(past) && Steady(other)
    case Removed(_, _) => false
  }

  // ----- the data is the fold of the writes

  /** No write to the same key is later. */
  ghost predicate IsTop(w: Write, ws: set<Write>) {
    w in ws && forall x :: x in ws && x.key == w.key ==> x.ts <= w.ts
  }

  /** The data holds, for each key written, one of its latest writes, and nothing else. */
  ghost predicate Fold(d: Data, ws: set<Write>) {
    && (forall w :: w in ws ==> w.key in d)
    && (forall k :: k in d ==> IsTop(Write(k, d[k].value, d[k].ts), ws))
  }

  ghost predicate Bounded(r: Replica) {
    forall k :: k in r.data ==> r.data[k].ts <= r.clock
  }

  lemma PutFolds(d: Data, ws: set<Write>, w: Write)
    requires Fold(d, ws)
    ensures Fold(Put(d, w), ws + {w})
  {
    var e := Put(d, w);
    forall k | k in e ensures IsTop(Write(k, e[k].value, e[k].ts), ws + {w}) {
      if k in d {
        assert IsTop(Write(k, d[k].value, d[k].ts), ws);
      }
    }
  }

  lemma JoinFolds(d: Data, ws: set<Write>, e: Data, us: set<Write>)
    requires Fold(d, ws) && Fold(e, us)
    ensures Fold(Join(d, e), ws + us)
  {
    var j := Join(d, e);
    forall k | k in j ensures IsTop(Write(k, j[k].value, j[k].ts), ws + us) {
      if k in d {
        assert IsTop(Write(k, d[k].value, d[k].ts), ws);
      }
      if k in e {
        assert IsTop(Write(k, e[k].value, e[k].ts), us);
      }
    }
  }

  /** When the clock bounds the data, a local write is stored like any other, and the only exception is a clock
      at its end: then the write goes back to time 0 and replaces a later one. */
  lemma LocalWins(r: Replica, key: Key, value: Value)
    requires Bounded(r)
    ensures var w := LocalWrite(r, key, value);
            Put(r.data, w) == r.data[key := Entry(w)]
            <==> r.clock + 1 < TWO64 || key !in r.data || r.data[key] == Stamped(value, 0)
  {
    var w := LocalWrite(r, key, value);
    if r.clock + 1 < TWO64 {
      assert w.ts == r.clock + 1;
    } else if key in r.data {
      assert w.ts == 0 && Put(r.data, w) == r.data;
      var d := r.data[key := Entry(w)];
      assert d[key] == Entry(w);
      assert r.data[key] == Entry(w) ==> d == r.data;
    }
  }

  /** A replica that has seen the last timestamp starts again at 0: its next Set is stored, but loses to what
      it replaced wherever the two meet. */
  lemma ClockWraps(k: Key, v: Value, w: Value)
    ensures var seen := Remote(New, Write(k, v, TWO64 - 1));
            var h := Local(seen, k, w);
            && State(h).data == map[k := Stamped(w, 0)] && !Fold(State(h).data, Absorbed(h))
            && State(Merged(h, seen)).data == map[k := Stamped(v, TWO64 - 1)]
  {
    var late := Write(k, v, TWO64 - 1);
    var seen := Remote(New, late);
    var h := Local(seen, k, w);
    assert State(New) == Replica(map[], 0);
    assert State(seen).data == map[k := Entry(late)] && State(seen).clock == TWO64 - 1;
    assert State(h).data == map[k := Stamped(w, 0)];
    assert late in Absorbed(seen) && late in Absorbed(h);
    assert !IsTop(Write(k, w, 0), Absorbed(h));
  }

  /** In every history the data is the fold of the writes absorbed and the clock bounds it. */
  lemma {:induction false} HistoryFolds(h: History)
    requires Steady(h)
    ensures Fold(State(h).data, Absorbed(h)) && Bounded(State(h))
  {
    hide Fold, Put, Join;
    match h
    case New => NewFolds();
    case Remote(past, w) =>
      HistoryFolds(past);
      PutFolds(State(past).data, Absorbed(past), w);
      PutBounded(State(past), w);
    case Local(past, key, value) =>
      HistoryFolds(past);
      LocalWins(State(past), key, value);
      PutFolds(State(past).data, Absorbed(past), LocalWrite(State(past), key, value));
    case Merged(past, other) =>
      HistoryFolds(past);
      HistoryFolds(other);
      JoinFolds(State(past).data, Absorbed(past), State(other).data, Absorbed(other));
      JoinBounded(State(past), State(other).data);
  }

  lemma NewFolds()
    ensures Fold(map[], {})
  {
  }

  lemma PutBounded(r: Replica, w: Write)
    requires Bounded(r)
    ensures Bounded(Replica(Put(r.data, w), MaxOf(r.clock, {w.ts})))
  {
  }

  lemma JoinBounded(r: Replica, e: Data)
    requires Bounded(r)
    ensures Bounded(Replica(Join(r.data, e), Raise(r.clock, e)))
  {
    var j, s := Join(r.data, e), set k | k in e :: e[k].ts;
    forall k | k in j ensures j[k].ts <= Raise(r.clock, e) {
      if k in e {
        assert e[k].ts in s;
      }
    }
  }

  // ----- convergence

  /** The latest writes to a key do not disagree. */
  ghost predicate TopsAgree(ws: set<Write>) {
    forall w, x :: IsTop(w, ws) && IsTop(x, ws) && w.key == x.key ==> w.value == x.value
  }

  lemma FoldUnique(d: Data, e: Data, ws: set<Write>)
    requires Fold(d, ws) && Fold(e, ws) && TopsAgree(ws)
    ensures d == e
  {
    forall k | k in d ensures k in e && d[k] == e[k] {
      var w := Write(k, d[k].value, d[k].ts);
      assert IsTop(w, ws) && w.key in e;
      assert IsTop(Write(k, e[k].value, e[k].ts), ws);
    }
    forall k | k in e ensures k in d {
      assert IsTop(Write(k, e[k].value, e[k].ts), ws);
    }
  }

  /** Some history in which the writes arrive one by one. */
  ghost function Deliver(h: History, ws: set<Write>): History
    decreases |ws|
  {
    if ws == {} then h
    else
      var w :| w in ws;
      Deliver(Remote(h, w), ws - {w})
  }

  ghost predicate Holds(h: History, w: Write) {
    Steady(h) && w.key in State(h).data && State(h).data[w.key] == Entry(w)
  }

  lemma RemoteHolds(h: History, x: Write, w: Write)
    requires Holds(h, w) && (x.key == w.key ==> x.ts <= w.ts)
    ensures Holds(Remote(h, x), w) && Absorbed(Remote(h, x)) == Absorbed(h) + {x}
  {
  }

  /** What arrived first is kept if nothing later arrives. */
  lemma {:induction false} FirstStays(h: History, ws: set<Write>, w: Write)
    requires Holds(h, w) && forall x :: x in ws && x.key == w.key ==> x.ts <= w.ts
    ensures Holds(Deliver(h, ws), w) && Absorbed(Deliver(h, ws)) == Absorbed(h) + ws
    decreases |ws|
  {
    hide Holds, Absorbed;
    if ws == {} {
      assert Absorbed(h) + ws == Absorbed(h);
    } else {
      var x :| x in ws && Deliver(h, ws) == Deliver(Remote(h, x), ws - {x});
      RemoteHolds(h, x, w);
      FirstStays(Remote(h, x), ws - {x}, w);
      assert Absorbed(h) + {x} + (ws - {x}) == Absorbed(h) + ws;
    }
  }

  /** A history of the writes in which a latest one arrives first. */
  lemma FirstWins(ws: set<Write>, w: Write) returns (h: History)
    requires IsTop(w, ws)
    ensures Holds(h, w) && Absorbed(h) == ws
  {
    var one := Remote(New, w);
    assert Steady(New) && State(New).data == map[];
    assert Steady(one) && State(one).data == Put(map[], w);
    FirstStays(one, ws, w);
    h := Deliver(one, ws);
    assert Absorbed(one) + ws == ws;
  }

  ghost predicate Converges(ws: set<Write>) {
    forall g, h :: Steady(g) && Steady(h) && Absorbed(g) == ws && Absorbed(h) == ws ==> State(g).data == State(h).data
  }

  /** Replicas that absorbed the same writes hold the same data, in whatever order, grouping and number they came,
      if and only if the latest writes to each key agree on the value. */
  lemma ConvergesExactly(ws: set<Write>)
    ensures Converges(ws) <==> TopsAgree(ws)
  {
    hide State, Absorbed, Steady, Fold, IsTop;
    if TopsAgree(ws) {
      forall g, h | Steady(g) && Steady(h) && Absorbed(g) == ws && Absorbed(h) == ws
        ensures State(g).data == State(h).data
      {
        HistoryFolds(g);
        HistoryFolds(h);
        FoldUnique(State(g).data, State(h).data, ws);
      }
    } else {
      var w, x :| IsTop(w, ws) && IsTop(x, ws) && w.key == x.key && w.value != x.value;
      var g := FirstWins(ws, w);
      var h := FirstWins(ws, x);
      assert State(g).data[w.key] != State(h).data[w.key];
    }
  }

  ghost predicate TiesAgree(d: Data, e: Data) {
    forall k :: k in d && k in e && d[k].ts == e[k].ts ==> d[k] == e[k]
  }

  /** Merging commutes, as far as the data goes, if and only if equal timestamps on a key mean equal values. */
  lemma MergeCommutes(a: History, b: History)
    ensures State(Merged(a, b)).data == State(Merged(b, a)).data
       <==> TiesAgree(State(a).data, State(b).data)
  {
    JoinCommutesExactly(State(a).data, State(b).data);
  }

  lemma JoinCommutesExactly(d: Data, e: Data)
    ensures Join(d, e) == Join(e, d) <==> TiesAgree(d, e)
  {
    var i, j := Join(d, e), Join(e, d);
    if i == j {
      forall k | k in d && k in e && d[k].ts == e[k].ts ensures d[k] == e[k] {
        assert i[k] == d[k] && j[k] == e[k];
      }
    }
  }

  /** The grouping of merges never matters. */
  lemma MergeAssociates(a: History, b: History, c: History)
    ensures State(Merged(Merged(a, b), c)).data == State(Merged(a, Merged(b, c))).data
  {
    JoinAssociates(State(a).data, State(b).data, State(c).data);
  }

  lemma JoinAssociates(d: Data, e: Data, f: Data)
    ensures Join(Join(d, e), f) == Join(d, Join(e, f))
  {
    var l, r := Join(Join(d, e), f), Join(d, Join(e, f));
    assert l.Keys == r.Keys;
    forall k | k in l ensures l[k] == r[k] {
    }
  }

  // ----- deletions

  /** Merges one after the other. */
  ghost function MergedAll(h: History, others: seq<History>): History
    decreases |others|
  {
    if others == [] then h else MergedAll(Merged(h, others[0]), others[1..])
  }

  ghost predicate SomeHas(others: seq<History>, k: Key) {
    exists o :: o in others && k in State(o).data
  }

  lemma SomeHasSplit(others: seq<History>, k: Key)
    requires others != []
    ensures SomeHas(others, k) <==> k in State(others[0]).data || SomeHas(others[1..], k)
  {
    hide State;
    assert others == [others[0]] + others[1..];
  }

  /** A deletion leaves no trace: the key is back after some merges if and only if one of the others still has it. */
  lemma DelReturnsExactly(h: History, k: Key, others: seq<History>)
    ensures k in State(MergedAll(Removed(h, k), others)).data <==> SomeHas(others, k)
  {
    assert k !in State(Removed(h, k)).data;
    MergedHas(Removed(h, k), others, k);
  }

  lemma {:induction false} MergedHas(h: History, others: seq<History>, k: Key)
    ensures k in State(MergedAll(h, others)).data <==> k in State(h).data || SomeHas(others, k)
    decreases |others|
  {
    if others != [] {
      MergedHas(Merged(h, others[0]), others[1..], k);
      SomeHasSplit(others, k);
    }
  }

  /** A replica gets its own deleted write back from one that had merged it before. */
  lemma DelComesBack(k: Key, v: Value)
    ensures var mine := Local(New, k, v);
            var theirs := Merged(New, mine);
            && k !in State(Removed(mine, k)).data
            && State(Merged(Removed(mine, k), theirs)).data == State(mine).data == map[k := Stamped(v, 1)]
  {
    var mine := Local(New, k, v);
    var theirs := Merged(New, mine);
    assert State(New) == Replica(map[], 0);
    assert State(mine).data == map[k := Stamped(v, 1)];
    assert State(theirs).data == map[k := Stamped(v, 1)];
    assert State(Removed(mine, k)).data == map[];
  }

  /** With deletions, replicas that saw the same writes and deletions need not agree. */
  lemma DelDiverges(w: Write)
    ensures State(Removed(Remote(New, w), w.key)).data != State(Remote(Removed(New, w.key), w)).data
  {
    assert State(New).data == map[];
    assert w.key in State(Remote(Removed(New, w.key), w)).data;
  }

  /** Merging again changes nothing. */
  lemma JoinAgain(d: Data, e: Data)
    ensures Join(d, d) == d && Join(Join(d, e), e) == Join(d, e)
  {
  }

  // ----- hashes

  /** Hashes have no timestamps: the other replica's fields go on top of the receiver's, and merging commutes
      only if they do not disagree. */
  lemma HashesCommuteExactly(d: map<Key, Fields>, e: map<Key, Fields>)
    ensures OverHashes(d, e) == OverHashes(e, d)
       <==> forall h, f :: h in d && h in e && f in d[h] && f in e[h] ==> d[h][f] == e[h][f]
  {
    var a, b := OverHashes(d, e), OverHashes(e, d);
    if a == b {
      forall h, f | h in d && h in e && f in d[h] && f in e[h] ensures d[h][f] == e[h][f] {
        assert a[h][f] == e[h][f] && b[h][f] == d[h][f];
      }
    } else {
      var h :| h in a && a[h] != b[h];
      assert h in d && h in e;
      var f :| f in a[h] && a[h][f] != b[h][f];
      assert f in d[h] && f in e[h];
    }
  }

  // ----- the store

  class CRDTStore {
    var data: Data
    var hashes: map<Key, Fields>
    var clock: Time
    /** What happened to the store so far. */
    ghost var history: History

    ghost predicate Valid()
      reads this
    {
      State(history) == Replica(data, clock)
    }

    constructor ()
      ensures Valid() && history == New && hashes == map[]
    {
      data, hashes, clock, history := map[], map[], 0, New;
    }

    method NextTS() returns (ts: Time)
      modifies this`clock
      ensures ts == clock == Tick(old(clock))
    {
      clock := (clock + 1) % TWO64;
      ts := clock;
    }

    method Set(key: Key, value: Value)
      requires Valid()
      modifies this`data, this`clock, this`history
      ensures Valid() && history == Local(old(history), key, value)
      ensures key in data && data[key].value == value
    {
      history := Local(history, key, value);
      var ts := NextTS();
      data := data[key := Stamped(value, ts)];
    }

    method Del(key: Key)
      requires Valid()
      modifies this`data, this`hashes, this`history
      ensures Valid() && history == Removed(old(history), key) && hashes == old(hashes) - {key}
    {
      data, hashes := data - {key}, hashes - {key};
      history := Removed(history, key);
    }

    method SetWithTS(key: Key, value: Value, ts: Time)
      requires Valid()
      modifies this`data, this`clock, this`history
      ensures Valid() && history == Remote(old(history), Write(key, value, ts))
    {
      if key !in data || ts > data[key].ts {
        data := data[key := Stamped(value, ts)];
      }
      if ts > clock {
        clock := ts;
      }
      history := Remote(history, Write(key, value, ts));
    }

    /** Taking over the data of another replica, its keys in any order. */
    method MergeData(from: Data)
      modifies this`data, this`clock
      ensures data == Join(old(data), from) && clock == Raise(old(clock), from)
    {
      hide Join, Raise, Ranged;
      RangeStart(from);
      ghost var d, c := data, clock;
      var todo := from;
      ghost var done: Data := map[];
      JoinNone(data);
      RaiseNone(clock);
      while todo != map[]
        invariant Ranged(from, todo, done)
        invariant data == Join(d, done) && clock == Raise(c, done)
        decreases |todo|
      {
        var key :| key in todo;
        RangeStep(from, todo, done, key);
        var v := todo[key];
        JoinOne(d, done, key, v);
        RaiseOne(c, done, key, v);
        if key !in data || v.ts > data[key].ts {
          data := data[key := v];
        }
        if v.ts > clock {
          clock := v.ts;
        }
        done := done[key := v];
        todo := todo - {key};
      }
      RangeEnd(from, done);
    }

    method MergeHashes(from: map<Key, Fields>)
      modifies this`hashes
      ensures hashes == OverHashes(old(hashes), from)
    {
      hide OverHashes, Ranged;
      RangeStart(from);
      ghost var d := hashes;
      var todo := from;
      ghost var done: map<Key, Fields> := map[];
      JoinNoHashes(hashes);
      while todo != map[]
        invariant Ranged(from, todo, done)
        invariant hashes == OverHashes(d, done)
        decreases |todo|
      {
        var h :| h in todo;
        RangeStep(from, todo, done, h);
        JoinOneHash(d, done, h, todo[h]);
        var m: Fields := if h in hashes then hashes[h] else map[];
        hashes := hashes[h := m + todo[h]];
        done := done[h := todo[h]];
        todo := todo - {h};
      }
      RangeEnd(from, done);
    }

    method Merge(other: CRDTStore)
      requires Valid() && other.Valid() && other != this
      modifies this
      ensures Valid() && history == Merged(old(history), other.history)
      ensures hashes == OverHashes(old(hashes), other.hashes)
    {
      MergeData(other.data);
      MergeHashes(other.hashes);
      history := Merged(history, other.history);
    }
  }

  lemma JoinNone(d: Data)
    ensures Join(d, map[]) == d
  {
  }

  lemma JoinNoHashes(d: map<Key, Fields>)
    ensures OverHashes(d, map[]) == d
  {
  }

  lemma JoinOneHash(d: map<Key, Fields>, done: map<Key, Fields>, h: Key, fields: Fields)
    requires h !in done
    ensures var j := OverHashes(d, done);
            OverHashes(d, done[h := fields]) == j[h := (if h in j then j[h] else map[]) + fields]
  {
    assert map[] + fields == fields;
  }

  lemma RaiseNone(c: Time)
    ensures Raise(c, map[]) == c
  {
    var none: Data := map[];
    assert (set k | k in none :: none[k].ts) == {};
  }

  lemma JoinOne(d: Data, done: Data, key: Key, v: Stamped)
    requires key !in done
    ensures var j := Join(d, done); Join(d, done[key := v]) == if key !in j || v.ts > j[key].ts then j[key := v] else j
  {
  }

  lemma RaiseOne(c: Time, done: Data, key: Key, v: Stamped)
    requires key !in done
    ensures Raise(c, done[key := v]) == if v.ts > Raise(c, done) then v.ts else Raise(c, done)
  {
    var e := done[key := v];
    var s, u := set k | k in done :: done[k].ts, set k | k in e :: e[k].ts;
    assert u == s + {v.ts} by {
      assert e[key].ts in u;
      forall x | x in s ensures x in u {
        var k :| k in done && done[k].ts == x;
        assert e[k].ts in u;
      }
    }
  }
}
