/** What the TTL store holds after a whole run, read off the run itself: for every entry, deadline and access time the
    last step that touched it decides. */
module TtlTraces {
  import opened Bytes
  import opened Lookups
  import opened Eviction
  import opened TtlSpec
  import opened TtlReads

  // ----- what one step does to one key

  predicate PutsString(step: Step, k: Key) {
    (step.cmd.Set? || step.cmd.SetWithTtl?) && step.cmd.key == k
  }

  predicate PutsField(step: Step, h: Key, f: Key) {
    step.cmd.HSet? && step.cmd.key == h && step.cmd.field == f
  }

  /** The step dates the key: a Set with a lifetime, or an Expire that finds a string. */
  predicate Dates(s: State, step: Step, k: Key) {
    (step.cmd.SetWithTtl? && step.cmd.key == k) || (step.cmd.Expire? && step.cmd.key == k && k in s.strings)
  }

  /** The key goes: deleted, evicted, or past its deadline when it is read or swept. */
  ghost predicate Drops(cfg: Config, s: State, step: Step, k: Key) {
    match step.cmd
    case Del(key) => key == k
    case Get(key) => key == k && Expired(s, k, step.now)
    case HGet(key, _) => key == k && Expired(s, k, step.now)
    case HGetAll(key) => key == k && Expired(s, k, step.now)
    case Sweep => Expired(s, k, step.now)
    case Expire(_, _) => false
    case Ttl(_) => false
    case _ => Evicted(cfg, s, step, k)
  }

  /** The step counts as a use of the key: it stores under it, or reads it before its deadline passed. */
  ghost predicate Uses(s: State, step: Step, k: Key) {
    && !step.cmd.Sweep? && step.cmd.key == k
    && (step.cmd.Stores() || ((step.cmd.Get? || step.cmd.HGet? || step.cmd.HGetAll?) && !Expired(s, k, step.now)))
  }

  function FieldsOf(s: State, h: Key): Fields {
    if h in s.hashes then s.hashes[h] else map[]
  }

  lemma DropStep(cfg: Config, s: State, step: Step, k: Key)
    requires Drops(cfg, s, step, k)
    ensures var s' := After(cfg, s, step); k !in s'.strings && k !in s'.hashes && k !in s'.expireAt
    ensures cfg.kind.Lru? ==> k !in After(cfg, s, step).mem.access
    ensures cfg.kind.Lfu? ==> k !in After(cfg, s, step).mem.freq
  {
    hide Stored, Victim;
  }

  /** Before anybody is evicted. */
  function Changed(cfg: Config, s: State, step: Step): State {
    if step.cmd.Stores() then Stored(cfg, s, step.cmd, step.now) else After(cfg, s, step)
  }

  lemma KeepStep(cfg: Config, s: State, step: Step, k: Key)
    requires !Drops(cfg, s, step, k)
    ensures var s1, s' := Changed(cfg, s, step), After(cfg, s, step);
            && Find(s'.strings, k) == Find(s1.strings, k) && FieldsOf(s', k) == FieldsOf(s1, k)
            && (k in s'.hashes <==> k in s1.hashes)
            && (k in s'.expireAt <==> k in s1.expireAt) && (k in s1.expireAt ==> s'.expireAt[k] == s1.expireAt[k])
            && (k in s'.mem.access <==> k in s1.mem.access)
            && (k in s1.mem.access ==> s'.mem.access[k] == s1.mem.access[k])
            && Score(s'.mem.freq, k) == Score(s1.mem.freq, k)
  {
    hide Stored, Victim;
  }

  lemma ChangeStep(cfg: Config, s: State, step: Step, k: Key)
    requires !Drops(cfg, s, step, k)
    ensures var s1 := Changed(cfg, s, step);
            && Find(s1.strings, k) == (if PutsString(step, k) then Found(step.cmd.value) else Find(s.strings, k))
            && (k in s1.hashes <==> k in s.hashes || (step.cmd.HSet? && step.cmd.key == k))
  {
    hide Recorded, Forgotten, ForgottenAll;
  }

  lemma DateStep(cfg: Config, s: State, step: Step, k: Key)
    requires !Drops(cfg, s, step, k)
    ensures var s1 := Changed(cfg, s, step);
            && (k in s1.expireAt <==> k in s.expireAt || Dates(s, step, k))
            && (k in s1.expireAt ==>
                  s1.expireAt[k] == if Dates(s, step, k) then step.now + step.cmd.ttl else s.expireAt[k])
  {
    hide Recorded, Forgotten, ForgottenAll;
  }

  lemma FieldStep(cfg: Config, s: State, step: Step, h: Key, f: Key)
    requires !Drops(cfg, s, step, h)
    ensures Find(FieldsOf(Changed(cfg, s, step), h), f)
         == if PutsField(step, h, f) then Found(step.cmd.value) else Find(FieldsOf(s, h), f)
  {
    hide Recorded, Forgotten;
  }

  /** What the policy remembers of the key changes only if it is used. */
  lemma MemoryStep(cfg: Config, s: State, step: Step, k: Key)
    requires !Drops(cfg, s, step, k)
    ensures var m, m' := s.mem, Changed(cfg, s, step).mem;
            || (Uses(s, step, k) && m' == Recorded(cfg.kind, m, k, step.now))
            || (!Uses(s, step, k) && exists gone: set<Key> :: k !in gone && m' == ForgottenAll(cfg.kind, m, gone))
            || (!Uses(s, step, k) && exists j :: j != k && m' == Recorded(cfg.kind, m, j, step.now))
  {
    hide Recorded;
    var m, m' := s.mem, Changed(cfg, s, step).mem;
    if !Uses(s, step, k) {
      if step.cmd.Sweep? {
        var gone := set j | j in s.expireAt && step.now > s.expireAt[j];
        assert m' == ForgottenAll(cfg.kind, m, gone);
      } else {
        var j := step.cmd.key;
        assert m' == m || (j != k && (m' == Recorded(cfg.kind, m, j, step.now) || m' == Forgotten(cfg.kind, m, j)));
        assert ForgottenAll(cfg.kind, m, {}) == m && ForgottenAll(cfg.kind, m, {j}) == Forgotten(cfg.kind, m, j);
      }
    }
  }

  // ----- the last touch decides

  /** What a step does to one entry. */
  datatype Touch<V> = Put(value: V) | Drop | Skip

  /** The value was put by the last touch. */
  ghost predicate Last<V>(ts: seq<Touch<V>>, v: V) {
    exists i :: 0 <= i < |ts| && ts[i] == Put(v) && forall j :: i < j < |ts| ==> ts[j] == Skip
  }

  /** What the steps of a run from the empty store do to one entry. */
  ghost function Touches<V>(cfg: Config, steps: seq<Step>, touch: (State, Step) -> Touch<V>): seq<Touch<V>> {
    seq(|steps|, i requires 0 <= i < |steps| => touch(Run(cfg, EMPTY, steps[..i]), steps[i]))
  }

  ghost function OnString(cfg: Config, k: Key): (State, Step) -> Touch<Value> {
    (s: State, step: Step) =>
      if Drops(cfg, s, step, k) then Drop else if PutsString(step, k) then Put(step.cmd.value) else Skip
  }

  ghost function OnField(cfg: Config, h: Key, f: Key): (State, Step) -> Touch<Value> {
    (s: State, step: Step) =>
      if Drops(cfg, s, step, h) then Drop else if PutsField(step, h, f) then Put(step.cmd.value) else Skip
  }

  ghost function OnDeadline(cfg: Config, k: Key): (State, Step) -> Touch<int> {
    (s: State, step: Step) =>
      if Drops(cfg, s, step, k) then Drop else if Dates(s, step, k) then Put(step.now + step.cmd.ttl) else Skip
  }

  ghost function OnUse(cfg: Config, k: Key): (State, Step) -> Touch<Time> {
    (s: State, step: Step) =>
      if Drops(cfg, s, step, k) then Drop else if Uses(s, step, k) then Put(step.now) else Skip
  }

  /** How often the key was used since it last went. */
  ghost function UseCount(cfg: Config, steps: seq<Step>, k: Key): nat {
    if steps == [] then 0
    else
      var init, step := steps[..|steps| - 1], steps[|steps| - 1];
      var s := Run(cfg, EMPTY, init);
      if Drops(cfg, s, step, k) then 0 else UseCount(cfg, init, k) + if Uses(s, step, k) then 1 else 0
  }

  lemma {:induction false} RunMore(cfg: Config, s: State, steps: seq<Step>, step: Step)
    ensures Run(cfg, s, steps + [step]) == After(cfg, Run(cfg, s, steps), step)
    decreases steps
  {
    hide After;
    if steps == [] {
      assert [step][1..] == [] && steps + [step] == [step];
    } else {
      assert (steps + [step])[1..] == steps[1..] + [step];
      RunMore(cfg, After(cfg, s, steps[0]), steps[1..], step);
    }
  }

  lemma TouchesMore<V>(cfg: Config, steps: seq<Step>, step: Step, touch: (State, Step) -> Touch<V>)
    ensures Touches(cfg, steps + [step], touch)
         == Touches(cfg, steps, touch) + [touch(Run(cfg, EMPTY, steps), step)]
  {
    hide Run;
    var more := steps + [step];
    assert more[..|steps|] == steps && more[|steps|] == step;
    assert forall i :: 0 <= i < |steps| ==> more[..i] == steps[..i] && more[i] == steps[i];
  }

  lemma LastMore<V>(ts: seq<Touch<V>>, t: Touch<V>, v: V)
    ensures Last(ts + [t], v) <==> t == Put(v) || (t == Skip && Last(ts, v))
  {
    var more := ts + [t];
    assert more[|ts|] == t && forall i :: 0 <= i < |ts| ==> more[i] == ts[i];
    if Last(ts, v) && t == Skip {
      var i :| 0 <= i < |ts| && ts[i] == Put(v) && forall j :: i < j < |ts| ==> ts[j] == Skip;
      assert more[i] == Put(v);
    }
  }

  // ----- what a run leaves behind

  /** A string is held if and only if the last step to touch it put it. */
  lemma {:induction false} StringsLast(cfg: Config, steps: seq<Step>, k: Key, v: Value)
    ensures Find(Run(cfg, EMPTY, steps).strings, k) == Found(v) <==> Last(Touches(cfg, steps, OnString(cfg, k)), v)
  {
    if steps != [] {
      hide Drops, After, Changed, Last, Touches;
      var init, step := steps[..|steps| - 1], steps[|steps| - 1];
      var s := Run(cfg, EMPTY, init);
      assert steps == init + [step];
      RunMore(cfg, EMPTY, init, step);
      StringsLast(cfg, init, k, v);
      TouchesMore(cfg, init, step, OnString(cfg, k));
      LastMore(Touches(cfg, init, OnString(cfg, k)), OnString(cfg, k)(s, step), v);
      if Drops(cfg, s, step, k) {
        DropStep(cfg, s, step, k);
      } else {
        KeepStep(cfg, s, step, k);
        ChangeStep(cfg, s, step, k);
      }
    }
  }

  lemma {:induction false} FieldsLast(cfg: Config, steps: seq<Step>, h: Key, f: Key, v: Value)
    ensures Find(FieldsOf(Run(cfg, EMPTY, steps), h), f) == Found(v)
       <==> Last(Touches(cfg, steps, OnField(cfg, h, f)), v)
  {
    if steps != [] {
      hide Drops, After, Changed, Last, Touches;
      var init, step := steps[..|steps| - 1], steps[|steps| - 1];
      var s := Run(cfg, EMPTY, init);
      assert steps == init + [step];
      RunMore(cfg, EMPTY, init, step);
      FieldsLast(cfg, init, h, f, v);
      TouchesMore(cfg, init, step, OnField(cfg, h, f));
      LastMore(Touches(cfg, init, OnField(cfg, h, f)), OnField(cfg, h, f)(s, step), v);
      if Drops(cfg, s, step, h) {
        DropStep(cfg, s, step, h);
      } else {
        KeepStep(cfg, s, step, h);
        FieldStep(cfg, s, step, h, f);
      }
    }
  }

  lemma {:induction false} DeadlinesLast(cfg: Config, steps: seq<Step>, k: Key, d: int)
    ensures var e := Run(cfg, EMPTY, steps).expireAt;
            k in e && e[k] == d <==> Last(Touches(cfg, steps, OnDeadline(cfg, k)), d)
  {
    if steps != [] {
      hide Drops, After, Changed, Last, Touches;
      var init, step := steps[..|steps| - 1], steps[|steps| - 1];
      var s := Run(cfg, EMPTY, init);
      assert steps == init + [step];
      RunMore(cfg, EMPTY, init, step);
      DeadlinesLast(cfg, init, k, d);
      TouchesMore(cfg, init, step, OnDeadline(cfg, k));
      LastMore(Touches(cfg, init, OnDeadline(cfg, k)), OnDeadline(cfg, k)(s, step), d);
      if Drops(cfg, s, step, k) {
        DropStep(cfg, s, step, k);
      } else {
        KeepStep(cfg, s, step, k);
        DateStep(cfg, s, step, k);
      }
    }
  }

  /** Under LRU the store remembers when each key was last used. */
  lemma {:induction false} AccessLast(cfg: Config, steps: seq<Step>, k: Key, t: Time)
    requires cfg.kind.Lru?
    ensures var a := Run(cfg, EMPTY, steps).mem.access;
            k in a && a[k] == t <==> Last(Touches(cfg, steps, OnUse(cfg, k)), t)
  {
    if steps != [] {
      hide Drops, After, Changed, Last, Touches, Uses;
      var init, step := steps[..|steps| - 1], steps[|steps| - 1];
      var s := Run(cfg, EMPTY, init);
      assert steps == init + [step];
      RunMore(cfg, EMPTY, init, step);
      AccessLast(cfg, init, k, t);
      TouchesMore(cfg, init, step, OnUse(cfg, k));
      LastMore(Touches(cfg, init, OnUse(cfg, k)), OnUse(cfg, k)(s, step), t);
      if Drops(cfg, s, step, k) {
        DropStep(cfg, s, step, k);
      } else {
        KeepStep(cfg, s, step, k);
        MemoryStep(cfg, s, step, k);
      }
    }
  }

  /** Under LFU it remembers how often. */
  lemma {:induction false} CountLast(cfg: Config, steps: seq<Step>, k: Key)
    requires cfg.kind.Lfu?
    ensures Score(Run(cfg, EMPTY, steps).mem.freq, k) == UseCount(cfg, steps, k)
  {
    if steps != [] {
      hide Drops, After, Changed, Uses;
      var init, step := steps[..|steps| - 1], steps[|steps| - 1];
      var s := Run(cfg, EMPTY, init);
      assert steps == init + [step];
      RunMore(cfg, EMPTY, init, step);
      CountLast(cfg, init, k);
      if Drops(cfg, s, step, k) {
        DropStep(cfg, s, step, k);
      } else {
        KeepStep(cfg, s, step, k);
        MemoryStep(cfg, s, step, k);
      }
    }
  }

  // ----- what the replies say

  /** Get finds a value if and only if the last step of the run to touch the string put it, and the last deadline the
      key was given, if it still has one, is not over. */
  lemma GetExactly(cfg: Config, steps: seq<Step>, k: Key, v: Value, now: Time)
    ensures ReplyTo(Run(cfg, EMPTY, steps), Get(k), now) == One(Found(v)) <==>
              && Last(Touches(cfg, steps, OnString(cfg, k)), v)
              && forall d :: Last(Touches(cfg, steps, OnDeadline(cfg, k)), d) ==> now <= d
  {
    hide Last, Run, Touches;
    StringsLast(cfg, steps, k, v);
    DatedExactly(cfg, steps, k, now);
  }

  lemma HGetExactly(cfg: Config, steps: seq<Step>, h: Key, f: Key, v: Value, now: Time)
    ensures ReplyTo(Run(cfg, EMPTY, steps), HGet(h, f), now) == One(Found(v)) <==>
              && Last(Touches(cfg, steps, OnField(cfg, h, f)), v)
              && forall d :: Last(Touches(cfg, steps, OnDeadline(cfg, h)), d) ==> now <= d
  {
    hide Last, Run, Touches;
    FieldsLast(cfg, steps, h, f, v);
    DatedExactly(cfg, steps, h, now);
  }

  /** TTL tells how long it is to the last deadline the key was given. */
  lemma TtlExactly(cfg: Config, steps: seq<Step>, k: Key, left: int, now: Time)
    requires left > 0
    ensures ReplyTo(Run(cfg, EMPTY, steps), Ttl(k), now) == Left(left)
       <==> Last(Touches(cfg, steps, OnDeadline(cfg, k)), now + left)
  {
    hide Last, Run, Touches;
    DeadlinesLast(cfg, steps, k, now + left);
  }

  lemma DatedExactly(cfg: Config, steps: seq<Step>, k: Key, now: Time)
    ensures Expired(Run(cfg, EMPTY, steps), k, now)
       <==> exists d :: Last(Touches(cfg, steps, OnDeadline(cfg, k)), d) && now > d
  {
    hide Last, Run, Touches;
    forall d {
      DeadlinesLast(cfg, steps, k, d);
    }
    var e := Run(cfg, EMPTY, steps).expireAt;
    if k in e {
      DeadlinesLast(cfg, steps, k, e[k]);
    }
  }

  // ----- whom the policies evict

  lemma StoredMemory(cfg: Config, s: State, cmd: Cmd, now: Time)
    requires cmd.Stores()
    ensures Stored(cfg, s, cmd, now).mem == Recorded(cfg.kind, s.mem, cmd.key, now)
  {
  }

  /** When a key was last used, the step just being made included. */
  ghost predicate UsedAt(cfg: Config, steps: seq<Step>, step: Step, k: Key, t: Time)
    requires step.cmd.Stores()
  {
    if k == step.cmd.key then t == step.now else Last(Touches(cfg, steps, OnUse(cfg, k)), t)
  }

  /** How often it was used, the step just being made included. */
  ghost function UsedTimes(cfg: Config, steps: seq<Step>, step: Step, k: Key): nat
    requires step.cmd.Stores()
  {
    UseCount(cfg, steps, k) + if k == step.cmd.key then 1 else 0
  }

  /** LRU evicts a key that was last used no later than any other key, the one just stored included. */
  lemma LruVictim(cfg: Config, steps: seq<Step>, step: Step, k: Key)
    requires cfg.kind.Lru? && cfg.maxKeys > 0 && step.cmd.Stores() && Allowed(cfg, Run(cfg, EMPTY, steps), step)
    requires k in Run(cfg, EMPTY, steps).tracked || k == step.cmd.key
    ensures exists t, u ::
              && UsedAt(cfg, steps, step, Choice(cfg, Run(cfg, EMPTY, steps), step), t)
              && UsedAt(cfg, steps, step, k, u) && t <= u
  {
    hide Run, Last, Touches, Victim, Lists, Stored;
    var s := Run(cfg, EMPTY, steps);
    var s1, v := Stored(cfg, s, step.cmd, step.now), Choice(cfg, s, step);
    RunKeeps(cfg, EMPTY, steps);
    VictimIsLeast(cfg, s, step);
    StoredKeeps(cfg, s, step.cmd, step.now);
    StoredMemory(cfg, s, step.cmd, step.now);
    AccessLast(cfg, steps, v, s1.mem.access[v]);
    AccessLast(cfg, steps, k, s1.mem.access[k]);
    assert UsedAt(cfg, steps, step, v, s1.mem.access[v]) && UsedAt(cfg, steps, step, k, s1.mem.access[k]);
  }

  /** LFU evicts a key that was used no more often than any other key, each counted since it came and the one just
      stored included. */
  lemma LfuVictim(cfg: Config, steps: seq<Step>, step: Step, k: Key)
    requires cfg.kind.Lfu? && cfg.maxKeys > 0 && step.cmd.Stores() && Allowed(cfg, Run(cfg, EMPTY, steps), step)
    requires k in Run(cfg, EMPTY, steps).tracked || k == step.cmd.key
    ensures UsedTimes(cfg, steps, step, Choice(cfg, Run(cfg, EMPTY, steps), step)) <= UsedTimes(cfg, steps, step, k)
  {
    hide Run, Victim, Lists, UseCount, Stored;
    var s := Run(cfg, EMPTY, steps);
    RunKeeps(cfg, EMPTY, steps);
    VictimIsLeast(cfg, s, step);
    StoredKeeps(cfg, s, step.cmd, step.now);
    StoredMemory(cfg, s, step.cmd, step.now);
    CountLast(cfg, steps, Choice(cfg, s, step));
    CountLast(cfg, steps, k);
  }
}
