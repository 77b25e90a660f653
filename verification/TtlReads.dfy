/** What readers of the TTL store can and cannot see: sweeps are invisible, and nothing is read past its deadline. */
module TtlReads {
  import opened Bytes
  import opened Lookups
  import opened Eviction
  import opened TtlSpec

  datatype Query = Query(cmd: Cmd, now: Time)

  ghost predicate AllReads(qs: seq<Query>, from: Time)
    decreases qs
  {
    qs != [] ==> qs[0].cmd.Reads() && from <= qs[0].now && AllReads(qs[1..], qs[0].now)
  }

  function AsStep(q: Query): Step {
    Step(q.cmd, q.now, [], 0)
  }

  /** The replies to a sequence of reads, each of which may remove a key whose deadline passed. */
  ghost function Replies(cfg: Config, s: State, qs: seq<Query>): seq<Reply>
    decreases qs
  {
    if qs == [] then []
    else [ReplyTo(s, qs[0].cmd, qs[0].now)] + Replies(cfg, After(cfg, s, AsStep(qs[0])), qs[1..])
  }

  /** `c` is `s` without the keys `gone`, all past their deadlines at `now`. The policies may remember different
      things. */
  ghost predicate Cleaner(s: State, c: State, gone: set<Key>, now: Time) {
    && (forall k :: k in gone ==> k in s.expireAt && now > s.expireAt[k])
    && c.strings == s.strings - gone && c.hashes == s.hashes - gone && c.expireAt == s.expireAt - gone
  }

  lemma ReadAlike(cfg: Config, s: State, c: State, gone: set<Key>, now: Time, q: Query)
    requires Cleaner(s, c, gone, now) && q.cmd.Reads() && now <= q.now
    ensures ReplyTo(s, q.cmd, q.now) == ReplyTo(c, q.cmd, q.now)
  {
  }

  lemma MinusOneMore<V>(m: map<Key, V>, gone: set<Key>, k: Key)
    ensures (m - {k}) - (gone - {k}) == (m - gone) - {k}
    ensures k in gone ==> (m - {k}) - (gone - {k}) == m - gone
  {
  }

  lemma RemoveCleaner(cfg: Config, s: State, c: State, gone: set<Key>, now: Time, k: Key, later: Time)
    requires Cleaner(s, c, gone, now) && now <= later
    ensures Cleaner(Remove(cfg, s, k), Remove(cfg, c, k), gone - {k}, later)
    ensures k in gone ==> Cleaner(Remove(cfg, s, k), c, gone - {k}, later)
  {
    MinusOneMore(s.strings, gone, k);
    MinusOneMore(s.hashes, gone, k);
    MinusOneMore(s.expireAt, gone, k);
  }

  lemma ReadStaysCleaner(cfg: Config, s: State, c: State, gone: set<Key>, now: Time, q: Query)
    requires Cleaner(s, c, gone, now) && q.cmd.Reads() && now <= q.now
    ensures Cleaner(After(cfg, s, AsStep(q)), After(cfg, c, AsStep(q)),
                    if q.cmd.Ttl? then gone else gone - {q.cmd.key}, q.now)
  {
    hide Remove, Recorded;
    var k := q.cmd.key;
    if !q.cmd.Ttl? {
      if Expired(s, k, q.now) {
        RemoveCleaner(cfg, s, c, gone, now, k, q.now);
        assert Expired(c, k, q.now) <==> k !in gone;
        assert k in gone ==>
          Cleaner(Remove(cfg, s, k), c.(mem := Recorded(cfg.kind, c.mem, k, q.now)), gone - {k}, q.now);
      } else {
        assert k !in gone;
        assert gone - {k} == gone;
      }
    }
  }

  lemma {:induction false} ReadsAlike(cfg: Config, s: State, c: State, gone: set<Key>, now: Time, qs: seq<Query>)
    requires Cleaner(s, c, gone, now) && AllReads(qs, now)
    ensures Replies(cfg, s, qs) == Replies(cfg, c, qs)
    decreases qs
  {
    hide Cleaner, After;
    if qs != [] {
      var q := qs[0];
      ReadAlike(cfg, s, c, gone, now, q);
      ReadStaysCleaner(cfg, s, c, gone, now, q);
      ReadsAlike(cfg, After(cfg, s, AsStep(q)), After(cfg, c, AsStep(q)),
                 if q.cmd.Ttl? then gone else gone - {q.cmd.key}, q.now, qs[1..]);
    }
  }

  /** A sweep is invisible: later reads, at times that do not go back, get the same replies with and without it. */
  lemma SweepInvisible(cfg: Config, s: State, now: Time, qs: seq<Query>)
    requires AllReads(qs, now)
    ensures Replies(cfg, Swept(cfg, s, now), qs) == Replies(cfg, s, qs)
  {
    var gone := set k | k in s.expireAt && now > s.expireAt[k];
    assert Cleaner(s, Swept(cfg, s, now), gone, now);
    ReadsAlike(cfg, s, Swept(cfg, s, now), gone, now, qs);
  }

  // ----- deadlines

  /** The steps neither store the key again nor give it a new deadline. */
  ghost predicate LeavesAlone(steps: seq<Step>, k: Key) {
    forall i :: 0 <= i < |steps| && (steps[i].cmd.Stores() || steps[i].cmd.Expire?) ==> steps[i].cmd.key != k
  }

  /** The key is gone, or still has its deadline. */
  ghost predicate Doomed(s: State, k: Key, deadline: int) {
    (k !in s.strings && k !in s.hashes) || (k in s.expireAt && s.expireAt[k] == deadline)
  }

  lemma RemoveDoomed(cfg: Config, s: State, k: Key, deadline: int, j: Key)
    requires Doomed(s, k, deadline)
    ensures Doomed(Remove(cfg, s, j), k, deadline)
  {
  }

  lemma StepDoomed(cfg: Config, s: State, step: Step, k: Key, deadline: int)
    requires Doomed(s, k, deadline)
    requires step.cmd.Stores() || step.cmd.Expire? ==> step.cmd.key != k
    ensures Doomed(After(cfg, s, step), k, deadline)
  {
    if step.cmd.Stores() {
      var s1 := Stored(cfg, s, step.cmd, step.now);
      assert Doomed(s1, k, deadline);
      hide Remove, Victim, Doomed, Stored;
      RemoveDoomed(cfg, s1, k, deadline, Victim(cfg.kind, s1.mem, step.order, s1.expireAt, step.now, step.dice));
    }
  }

  /** No value is read past its deadline: whatever else happens, until the key is stored again or given
      a new deadline, every read of it after the deadline finds nothing. */
  lemma {:induction false} DeadlineHolds(cfg: Config, s: State, steps: seq<Step>, k: Key, now: Time)
    requires k in s.expireAt && now > s.expireAt[k] && LeavesAlone(steps, k)
    ensures var s' := Run(cfg, s, steps);
            && ReplyTo(s', Get(k), now) == One(Missing)
            && ReplyTo(s', HGetAll(k), now) == Whole(false, map[])
            && forall f :: ReplyTo(s', HGet(k, f), now) == One(Missing)
  {
    DoomedRun(cfg, s, steps, k, s.expireAt[k]);
  }

  lemma {:induction false} DoomedRun(cfg: Config, s: State, steps: seq<Step>, k: Key, deadline: int)
    requires Doomed(s, k, deadline) && LeavesAlone(steps, k)
    ensures Doomed(Run(cfg, s, steps), k, deadline)
    decreases steps
  {
    hide Doomed, After;
    if steps != [] {
      StepDoomed(cfg, s, steps[0], k, deadline);
      DoomedRun(cfg, After(cfg, s, steps[0]), steps[1..], k, deadline);
    }
  }

  /** The storing command makes room by evicting this key. */
  ghost predicate Evicted(cfg: Config, s: State, step: Step, k: Key)
    requires step.cmd.Stores()
  {
    Over(cfg, Stored(cfg, s, step.cmd, step.now)) && Choice(cfg, s, step) == k != []
  }

  /** The store makes room for a Set by evicting the very key that was set. */
  ghost predicate EvictsItself(cfg: Config, s: State, step: Step)
    requires step.cmd.Stores()
  {
    Evicted(cfg, s, step, step.cmd.key)
  }

  /** A value just set is found if and only if the store did not evict its key to make room for it, and no deadline
      the key had before has passed: a plain Set keeps an old deadline. */
  lemma SetThenGet(cfg: Config, s: State, k: Key, v: Value, t: Time, order: seq<Key>, dice: nat, now: Time)
    ensures var step := Step(Set(k, v), t, order, dice);
            ReplyTo(After(cfg, s, step), Get(k), now) == One(Found(v))
            <==> !EvictsItself(cfg, s, step) && !Expired(s, k, now)
  {
    hide Victim, Recorded, Forgotten;
    var step := Step(Set(k, v), t, order, dice);
    var s1 := Stored(cfg, s, step.cmd, t);
    assert s1.strings == s.strings[k := v] && s1.expireAt == s.expireAt;
    var s2 := After(cfg, s, step);
    if Over(cfg, s1) && Choice(cfg, s, step) != [] {
      assert s2 == Remove(cfg, s1, Choice(cfg, s, step));
    } else {
      assert s2 == s1;
    }
  }

  /** A Set that comes after the deadline of an earlier one is lost at once. */
  lemma LateSetLost(cfg: Config, k: Key, v: Value, w: Value)
    requires cfg.maxKeys <= 0
    ensures var steps := [Step(SetWithTtl(k, v, 1), 0, [k], 0), Step(Set(k, w), 5, [k], 0)];
            AllowedRun(cfg, EMPTY, steps) && ReplyTo(Run(cfg, EMPTY, steps), Get(k), 5) == One(Missing)
  {
    var first, second := Step(SetWithTtl(k, v, 1), 0, [k], 0), Step(Set(k, w), 5, [k], 0);
    var s := After(cfg, EMPTY, first);
    assert s.expireAt == map[k := 1] && s.tracked == {k};
    assert Stored(cfg, s, second.cmd, 5).tracked == {k};
    RunNone(cfg, After(cfg, s, second));
    RunOn(cfg, s, second, []);
    RunOn(cfg, EMPTY, first, [second]);
    assert [second] + [] == [second] && [first] + [second] == [first, second];
  }

  /** A store of one key, used `n` times. */
  function OneKey(a: Key, v: Value, n: nat): State {
    State(map[a := v], map[], map[], {a}, Memory(map[], map[a := n]))
  }

  lemma SetAgain(a: Key, v: Value, n: nat, now: Time)
    requires n >= 1
    ensures After(Config(Lfu, 1), OneKey(a, v, n), Step(Set(a, v), now, [a], 0)) == OneKey(a, v, n + 1)
    ensures Stored(Config(Lfu, 1), OneKey(a, v, n), Set(a, v), now).tracked == {a}
  {
    var s := Stored(Config(Lfu, 1), OneKey(a, v, n), Set(a, v), now);
    assert s.strings == map[a := v] && s.tracked == {a} && s.mem.freq == map[a := n + 1];
  }

  lemma NewcomerGoes(a: Key, b: Key, v: Value, now: Time)
    requires a != b && b != []
    ensures b !in After(Config(Lfu, 1), OneKey(a, v, 2), Step(Set(b, v), now, [a, b], 0)).strings
    ensures Stored(Config(Lfu, 1), OneKey(a, v, 2), Set(b, v), now).tracked == {a, b}
  {
    var s := Stored(Config(Lfu, 1), OneKey(a, v, 2), Set(b, v), now);
    assert s.tracked == {a, b} && s.mem.freq == map[a := 2, b := 1];
    assert [a, b][..1] == [a] && MinPick(s.mem.freq, [a]) == a;
    assert MinPick(s.mem.freq, [a, b]) == b;
  }

  /** Under LFU a full store evicts the newcomer: of "a" set twice and "b" set once, "b" goes at once. */
  lemma LfuEvictsNewcomer(a: Key, b: Key, v: Value)
    requires a != b && b != []
    ensures var cfg := Config(Lfu, 1);
            var steps := [Step(Set(a, v), 1, [a], 0), Step(Set(a, v), 2, [a], 0), Step(Set(b, v), 3, [a, b], 0)];
            AllowedRun(cfg, EMPTY, steps) && ReplyTo(Run(cfg, EMPTY, steps), Get(b), 3) == One(Missing)
  {
    hide After, Stored, Run, AllowedRun;
    var cfg := Config(Lfu, 1);
    var x, y, z := Step(Set(a, v), 1, [a], 0), Step(Set(a, v), 2, [a], 0), Step(Set(b, v), 3, [a, b], 0);
    FirstSet(a, v);
    SetAgain(a, v, 1, 2);
    NewcomerGoes(a, b, v, 3);
    RunNone(cfg, After(cfg, OneKey(a, v, 2), z));
    RunOn(cfg, OneKey(a, v, 2), z, []);
    RunOn(cfg, OneKey(a, v, 1), y, [z]);
    RunOn(cfg, EMPTY, x, [y, z]);
    assert [z] + [] == [z] && [y] + [z] == [y, z] && [x] + [y, z] == [x, y, z];
  }

  lemma RunNone(cfg: Config, s: State)
    ensures Run(cfg, s, []) == s && AllowedRun(cfg, s, [])
  {
  }

  lemma RunOn(cfg: Config, s: State, step: Step, rest: seq<Step>)
    ensures Run(cfg, s, [step] + rest) == Run(cfg, After(cfg, s, step), rest)
    ensures AllowedRun(cfg, s, [step] + rest) <==> Allowed(cfg, s, step) && AllowedRun(cfg, After(cfg, s, step), rest)
  {
    hide After, Allowed;
    assert ([step] + rest)[1..] == rest;
  }

  lemma FirstSet(a: Key, v: Value)
    ensures After(Config(Lfu, 1), EMPTY, Step(Set(a, v), 1, [a], 0)) == OneKey(a, v, 1)
    ensures Stored(Config(Lfu, 1), EMPTY, Set(a, v), 1).tracked == {a}
  {
    var s := Stored(Config(Lfu, 1), EMPTY, Set(a, v), 1);
    assert s.strings == map[a := v] && s.tracked == {a} && s.mem.freq == map[a := 1];
  }
}
