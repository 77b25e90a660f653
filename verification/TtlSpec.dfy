/** The TTL store as a state machine: every public operation and every sweep is one atomic step,
    at a time given by a logical clock. */
module TtlSpec {
  import opened Bytes
  import opened Lookups
  import opened Eviction

  datatype Config = Config(kind: Kind, maxKeys: int)

  /** The inner store (`strings`, `hashes`), the deadlines, the tracked keys and the policy's memory. */
  datatype State = State(
    strings: map<Key, Value>, hashes: map<Key, Fields>, expireAt: map<Key, int>, tracked: set<Key>, mem: Memory)

  const EMPTY := State(map[], map[], map[], {}, Memory(map[], map[]))

  datatype Cmd =
    | Set(key: Key, value: Value)
    | SetWithTtl(key: Key, value: Value, ttl: int)
    | HSet(key: Key, field: Key, value: Value)
    | Get(key: Key)
    | HGet(key: Key, field: Key)
    | HGetAll(key: Key)
    | Del(key: Key)
    | Expire(key: Key, ttl: int)
    | Ttl(key: Key)
    | Sweep
  {
    /** Whether the command stores something, and so may have to evict. */
    predicate Stores() {
      Set? || SetWithTtl? || HSet?
    }

    predicate Reads() {
      Get? || HGet? || HGetAll? || Ttl?
    }
  }

  /** `order` is the order in which the candidates for eviction are listed, `dice` the random draw. */
  datatype Step = Step(cmd: Cmd, now: Time, order: seq<Key>, dice: nat)

  datatype Reply = Done | One(lookup: Lookup) | Whole(present: bool, fields: Fields) | Yes(ok: bool) | Left(ttl: int)

  // ----- the bookkeeping operations

  function Track(cfg: Config, s: State, k: Key, now: Time): State {
    s.(tracked := s.tracked + {k}, mem := Recorded(cfg.kind, s.mem, k, now))
  }

  /** Forgets a key everywhere, the inner store included. */
  function Remove(cfg: Config, s: State, k: Key): State {
    State(s.strings - {k}, s.hashes - {k}, s.expireAt - {k}, s.tracked - {k}, Forgotten(cfg.kind, s.mem, k))
  }

  predicate Expired(s: State, k: Key, now: Time) {
    k in s.expireAt && now > s.expireAt[k]
  }

  function Candidates(cfg: Config, s: State): set<Key> {
    if cfg.kind.VolatileTtl? then s.expireAt.Keys else s.tracked
  }

  predicate Over(cfg: Config, s: State) {
    cfg.maxKeys > 0 && |s.tracked| > cfg.maxKeys
  }

  /** A list of the elements of a set, each once. */
  ghost predicate Lists(order: seq<Key>, ks: set<Key>) {
    && (forall k :: k in order <==> k in ks)
    && (forall i, j :: 0 <= i < j < |order| ==> order[i] != order[j])
  }

  function EvictIfNeeded(cfg: Config, s: State, now: Time, order: seq<Key>, dice: nat): State {
    if !Over(cfg, s) then s
    else
      var v := Victim(cfg.kind, s.mem, order, s.expireAt, now, dice);
      if v == [] then s else Remove(cfg, s, v)
  }

  /** The state in which a storing command decides whether to evict. */
  function Stored(cfg: Config, s: State, cmd: Cmd, now: Time): State
    requires cmd.Stores()
  {
    match cmd
    case Set(k, v) => Track(cfg, s.(strings := s.strings[k := v]), k, now)
    case SetWithTtl(k, v, ttl) =>
      Track(cfg, s.(strings := s.strings[k := v], expireAt := s.expireAt[k := now + ttl]), k, now)
    case HSet(h, f, v) =>
      var fields := if h in s.hashes then s.hashes[h] else map[];
      Track(cfg, s.(hashes := s.hashes[h := fields[f := v]]), h, now)
  }

  function Swept(cfg: Config, s: State, now: Time): State {
    var gone := set k | k in s.expireAt && now > s.expireAt[k];
    State(s.strings - gone, s.hashes - gone, s.expireAt - gone, s.tracked - gone, ForgottenAll(cfg.kind, s.mem, gone))
  }

  function ForgottenAll(kind: Kind, mem: Memory, ks: set<Key>): Memory {
    match kind
    case Lru => mem.(access := mem.access - ks)
    case Lfu => mem.(freq := mem.freq - ks)
    case _ => mem
  }

  function After(cfg: Config, s: State, step: Step): State {
    var Step(cmd, now, order, dice) := step;
    match cmd
    case Get(k) => AfterRead(cfg, s, k, now)
    case HGet(h, _) => AfterRead(cfg, s, h, now)
    case HGetAll(h) => AfterRead(cfg, s, h, now)
    case Del(k) => Remove(cfg, s, k)
    case Expire(k, ttl) => if k in s.strings then s.(expireAt := s.expireAt[k := now + ttl]) else s
    case Ttl(_) => s
    case Sweep => Swept(cfg, s, now)
    case _ => EvictIfNeeded(cfg, Stored(cfg, s, cmd, now), now, order, dice)
  }

  /** A read removes the key if its deadline passed, and is recorded otherwise. */
  function AfterRead(cfg: Config, s: State, k: Key, now: Time): State {
    if Expired(s, k, now) then Remove(cfg, s, k) else s.(mem := Recorded(cfg.kind, s.mem, k, now))
  }

  function ReplyTo(s: State, cmd: Cmd, now: Time): Reply {
    match cmd
    case Get(k) => One(if Expired(s, k, now) then Missing else Find(s.strings, k))
    case HGet(h, f) => One(if Expired(s, h, now) || h !in s.hashes then Missing else Find(s.hashes[h], f))
    case HGetAll(h) => if Expired(s, h, now) || h !in s.hashes then Whole(false, map[]) else Whole(true, s.hashes[h])
    case Expire(k, _) => Yes(k in s.strings)
    case Ttl(k) => Left(if k in s.expireAt && s.expireAt[k] - now > 0 then s.expireAt[k] - now else -2)
    case _ => Done
  }

  /** The environment lists exactly the candidates when the store has to evict. */
  ghost predicate Allowed(cfg: Config, s: State, step: Step) {
    step.cmd.Stores() ==> Lists(step.order, Candidates(cfg, Stored(cfg, s, step.cmd, step.now)))
  }

  ghost predicate AllowedRun(cfg: Config, s: State, steps: seq<Step>)
    decreases steps
  {
    steps != [] ==> Allowed(cfg, s, steps[0]) && AllowedRun(cfg, After(cfg, s, steps[0]), steps[1..])
  }

  ghost function Run(cfg: Config, s: State, steps: seq<Step>): State
    decreases steps
  {
    if steps == [] then s else Run(cfg, After(cfg, s, steps[0]), steps[1..])
  }

  // ----- bookkeeping

  /** The tracked keys are the keys of the inner store, deadlines exist only for them, and the policy knows them all. */
  ghost predicate Kept(cfg: Config, s: State) {
    && s.tracked == s.strings.Keys + s.hashes.Keys
    && s.expireAt.Keys <= s.tracked
    && (cfg.kind.Lru? ==> s.tracked <= s.mem.access.Keys)
    && (cfg.kind.Lfu? ==> s.tracked <= s.mem.freq.Keys)
  }

  lemma RemoveKeeps(cfg: Config, s: State, k: Key)
    requires Kept(cfg, s)
    ensures Kept(cfg, Remove(cfg, s, k))
  {
  }

  lemma StoredKeeps(cfg: Config, s: State, cmd: Cmd, now: Time)
    requires Kept(cfg, s) && cmd.Stores()
    ensures Kept(cfg, Stored(cfg, s, cmd, now)) && Stored(cfg, s, cmd, now).tracked == s.tracked + {cmd.key}
  {
    var s' := Stored(cfg, s, cmd, now);
    assert s'.tracked == s.tracked + {cmd.key};
  }

  lemma SweptKeeps(cfg: Config, s: State, now: Time)
    requires Kept(cfg, s)
    ensures Kept(cfg, Swept(cfg, s, now)) && Swept(cfg, s, now).tracked <= s.tracked
  {
  }

  lemma RecordedKeeps(cfg: Config, s: State, k: Key, now: Time)
    requires Kept(cfg, s)
    ensures Kept(cfg, s.(mem := Recorded(cfg.kind, s.mem, k, now)))
  {
  }

  lemma StepKeeps(cfg: Config, s: State, step: Step)
    requires Kept(cfg, s)
    ensures Kept(cfg, After(cfg, s, step))
  {
    hide Remove, Stored, Swept, Recorded, Victim;
    var Step(cmd, now, order, dice) := step;
    if cmd.Stores() {
      var s1 := Stored(cfg, s, cmd, now);
      StoredKeeps(cfg, s, cmd, now);
      RemoveKeeps(cfg, s1, Victim(cfg.kind, s1.mem, order, s1.expireAt, now, dice));
    } else if !cmd.Sweep? {
      RemoveKeeps(cfg, s, cmd.key);
      RecordedKeeps(cfg, s, cmd.key, now);
    } else {
      SweptKeeps(cfg, s, now);
    }
  }

  /** Over every run the bookkeeping stays in agreement with the inner store. */
  lemma {:induction false} RunKeeps(cfg: Config, s: State, steps: seq<Step>)
    requires Kept(cfg, s)
    ensures Kept(cfg, Run(cfg, s, steps))
    decreases steps
  {
    if steps != [] {
      StepKeeps(cfg, s, steps[0]);
      RunKeeps(cfg, After(cfg, s, steps[0]), steps[1..]);
    }
  }

  // ----- capacity

  /** The policies that always find a victim. */
  predicate Evicts(cfg: Config) {
    cfg.maxKeys > 0 && (cfg.kind.Lru? || cfg.kind.Lfu? || cfg.kind.Random?)
  }

  /** Whom a storing command would evict, in a store with room for no more. */
  function Choice(cfg: Config, s: State, step: Step): Key
    requires step.cmd.Stores()
  {
    var s1 := Stored(cfg, s, step.cmd, step.now);
    Victim(cfg.kind, s1.mem, step.order, s1.expireAt, step.now, step.dice)
  }

  /** The victim is tracked, and under LRU or LFU nobody tracked was used longer ago or less often. */
  lemma VictimIsLeast(cfg: Config, s: State, step: Step)
    requires Kept(cfg, s) && Evicts(cfg) && step.cmd.Stores() && Allowed(cfg, s, step)
    ensures var s1, v := Stored(cfg, s, step.cmd, step.now), Choice(cfg, s, step);
            && v in s1.tracked
            && (cfg.kind.Lru? ==>
                  v in s1.mem.access &&
                  forall k :: k in s1.tracked ==> k in s1.mem.access && s1.mem.access[v] <= s1.mem.access[k])
            && (cfg.kind.Lfu? ==>
                  v in s1.mem.freq &&
                  forall k :: k in s1.tracked ==> k in s1.mem.freq && s1.mem.freq[v] <= s1.mem.freq[k])
  {
    hide Stored;
    var s1 := Stored(cfg, s, step.cmd, step.now);
    StoredKeeps(cfg, s, step.cmd, step.now);
    assert step.cmd.key in s1.tracked;
    assert step.order != [];
    if cfg.kind.Lru? {
      MinPickIsLeast(s1.mem.access, step.order);
    } else if cfg.kind.Lfu? {
      MinPickIsLeast(s1.mem.freq, step.order);
    }
  }

  /** Under volatile-ttl the victim is a key with a deadline, and no deadline is earlier than its own. */
  lemma VolatileVictim(cfg: Config, s: State, step: Step)
    requires cfg.kind.VolatileTtl? && step.cmd.Stores() && Allowed(cfg, s, step)
    requires Stored(cfg, s, step.cmd, step.now).expireAt != map[]
    ensures var e, v := Stored(cfg, s, step.cmd, step.now).expireAt, Choice(cfg, s, step);
            v in e && forall k :: k in e ==> e[v] <= e[k]
  {
    hide Stored;
    var e := Stored(cfg, s, step.cmd, step.now).expireAt;
    var k :| k in e;
    assert k in step.order;
    MinPickIsLeast(Remaining(e, step.now), step.order);
  }

  /** Whoever is chosen is tracked. */
  lemma ChoiceTracked(cfg: Config, s: State, step: Step)
    requires Kept(cfg, s) && step.cmd.Stores() && Allowed(cfg, s, step) && Choice(cfg, s, step) != []
    ensures Choice(cfg, s, step) in Stored(cfg, s, step.cmd, step.now).tracked
  {
    hide Stored;
    var s1 := Stored(cfg, s, step.cmd, step.now);
    StoredKeeps(cfg, s, step.cmd, step.now);
    if cfg.kind.Lru? {
      MinPickListed(s1.mem.access, step.order);
    } else if cfg.kind.Lfu? {
      MinPickListed(s1.mem.freq, step.order);
    } else if cfg.kind.VolatileTtl? {
      MinPickListed(Remaining(s1.expireAt, step.now), step.order);
    }
  }

  /** Under every policy a step keeps the key count within the limit if and only if it need not evict, or the policy
      chooses somebody; a policy that chooses nobody, or the empty key, lets the store grow. */
  lemma CapacityExactly(cfg: Config, s: State, step: Step)
    requires Kept(cfg, s) && cfg.maxKeys > 0 && |s.tracked| <= cfg.maxKeys && step.cmd.Stores() && Allowed(cfg, s, step)
    ensures |After(cfg, s, step).tracked| <= cfg.maxKeys
            <==> !(Over(cfg, Stored(cfg, s, step.cmd, step.now)) && Choice(cfg, s, step) == [])
  {
    hide Stored, Victim, Kept, Lists;
    var s1 := Stored(cfg, s, step.cmd, step.now);
    StoredKeeps(cfg, s, step.cmd, step.now);
    assert |s1.tracked| <= |s.tracked| + 1;
    if Choice(cfg, s, step) != [] {
      ChoiceTracked(cfg, s, step);
      assert |s1.tracked - {Choice(cfg, s, step)}| == |s1.tracked| - 1;
    }
  }

  /** Under volatile-ttl, two keys without deadlines overflow a store for one: there is nobody to choose from. */
  lemma VolatileOverflows()
    ensures var cfg := Config(VolatileTtl, 1);
            var steps := [Step(Set([6], [1]), 1, [], 0), Step(Set([7], [2]), 2, [], 0)];
            AllowedRun(cfg, EMPTY, steps) && |Run(cfg, EMPTY, steps).tracked| == 2
  {
    var cfg := Config(VolatileTtl, 1);
    var a, b := Step(Set([6], [1]), 1, [], 0), Step(Set([7], [2]), 2, [], 0);
    var s1 := After(cfg, EMPTY, a);
    assert s1.tracked == {[6]} && s1.expireAt == map[];
    var s2 := After(cfg, s1, b);
    assert s2.tracked == {[6], [7]};
    var steps := [a, b];
    assert steps[1..] == [b] && [b][1..] == [];
    assert Run(cfg, EMPTY, steps) == Run(cfg, s1, [b]) == s2;
  }

  /** A full store of one key overflows when that key is empty. */
  lemma EmptyKeyOverflows()
    ensures var cfg := Config(Lru, 1);
            var s := Run(cfg, EMPTY, [Step(Set([], [1]), 1, [[]], 0), Step(Set([7], [2]), 2, [[], [7]], 0)]);
            |s.tracked| == 2
  {
    var cfg := Config(Lru, 1);
    var a, b := Step(Set([], [1]), 1, [[]], 0), Step(Set([7], [2]), 2, [[], [7]], 0);
    var s1 := After(cfg, EMPTY, a);
    assert s1.tracked == {[]} && s1.mem.access == map[[] := 1];
    var s2 := Stored(cfg, s1, b.cmd, 2);
    assert s2.mem.access == map[[] := 1, [7] := 2];
    assert b.order[..1] == [[]];
    assert MinPick(s2.mem.access, b.order) == [];
    var steps := [a, b];
    assert steps[1..] == [b] && [b][1..] == [];
    assert Run(cfg, EMPTY, steps) == Run(cfg, s1, [b]) == After(cfg, s1, b);
    assert After(cfg, s1, b).tracked == {[], [7]};
  }

  ghost predicate NonEmptyKeys(steps: seq<Step>) {
    forall i :: 0 <= i < |steps| && steps[i].cmd.Stores() ==> steps[i].cmd.key != []
  }

  lemma OthersShrink(cfg: Config, s: State, step: Step)
    requires Kept(cfg, s) && !step.cmd.Stores()
    ensures After(cfg, s, step).tracked <= s.tracked && |After(cfg, s, step).tracked| <= |s.tracked|
  {
    hide Kept, Swept, Recorded;
    var s' := After(cfg, s, step);
    if step.cmd.Sweep? { SweptKeeps(cfg, s, step.now); }
    assert s.tracked == s'.tracked + (s.tracked - s'.tracked);
  }

  lemma StepWithin(cfg: Config, s: State, step: Step)
    requires Kept(cfg, s) && Evicts(cfg) && |s.tracked| <= cfg.maxKeys && [] !in s.tracked && Allowed(cfg, s, step)
    requires step.cmd.Stores() ==> step.cmd.key != []
    ensures |After(cfg, s, step).tracked| <= cfg.maxKeys && [] !in After(cfg, s, step).tracked
  {
    if step.cmd.Stores() {
      hide Stored, Victim, Kept, Lists;
      VictimIsLeast(cfg, s, step);
      CapacityExactly(cfg, s, step);
      StoredKeeps(cfg, s, step.cmd, step.now);
    } else {
      OthersShrink(cfg, s, step);
    }
  }

  /** Capacity: over every run with non-empty keys the key count never exceeds the limit. */
  lemma {:induction false} RunWithin(cfg: Config, s: State, steps: seq<Step>)
    requires Kept(cfg, s) && Evicts(cfg) && |s.tracked| <= cfg.maxKeys && [] !in s.tracked
    requires AllowedRun(cfg, s, steps) && NonEmptyKeys(steps)
    ensures |Run(cfg, s, steps).tracked| <= cfg.maxKeys
    decreases steps
  {
    if steps != [] {
      StepKeeps(cfg, s, steps[0]);
      StepWithin(cfg, s, steps[0]);
      RunWithin(cfg, After(cfg, s, steps[0]), steps[1..]);
    }
  }
}
