/** What one command of the TTL store changes in the replies to the reads that follow it, key by key. */
module TtlLaws {
  import opened Bytes
  import opened Lookups
  import opened Eviction
  import opened TtlSpec
  import opened TtlReads

  /** Every read of the key finds nothing, at any time. */
  ghost predicate Absent(s: State, k: Key) {
    && (forall now: Time :: ReplyTo(s, Get(k), now) == One(Missing))
    && (forall now: Time, f :: ReplyTo(s, HGet(k, f), now) == One(Missing))
    && (forall now: Time :: ReplyTo(s, HGetAll(k), now) == Whole(false, map[]))
    && (forall now: Time :: ReplyTo(s, Ttl(k), now) == Left(-2))
  }

  /** Every read of the key gets the same reply in both states, at any time. */
  ghost predicate Alike(s: State, s': State, k: Key) {
    && (forall now: Time :: ReplyTo(s', Get(k), now) == ReplyTo(s, Get(k), now))
    && (forall now: Time, f :: ReplyTo(s', HGet(k, f), now) == ReplyTo(s, HGet(k, f), now))
    && (forall now: Time :: ReplyTo(s', HGetAll(k), now) == ReplyTo(s, HGetAll(k), now))
    && (forall now: Time :: ReplyTo(s', Ttl(k), now) == ReplyTo(s, Ttl(k), now))
  }

  // ----- from entries to replies

  ghost predicate SameEntry<V>(m: map<Key, V>, m': map<Key, V>, k: Key) {
    (k in m <==> k in m') && (k in m ==> m[k] == m'[k])
  }

  lemma SameAlike(s: State, s': State, k: Key)
    requires SameEntry(s.strings, s'.strings, k) && SameEntry(s.hashes, s'.hashes, k)
    requires SameEntry(s.expireAt, s'.expireAt, k)
    ensures Alike(s, s', k)
  {
  }

  lemma NoneAbsent(s: State, k: Key)
    requires k !in s.strings && k !in s.hashes && k !in s.expireAt
    ensures Absent(s, k)
  {
  }

  /** A new store holds nothing. */
  lemma EmptyAbsent(k: Key)
    ensures Absent(EMPTY, k)
  {
    NoneAbsent(EMPTY, k);
  }

  lemma RemovedAbsent(cfg: Config, s: State, j: Key, k: Key)
    ensures if k == j then Absent(Remove(cfg, s, j), k) else Alike(s, Remove(cfg, s, j), k)
  {
    hide Absent, Alike;
    if k == j {
      NoneAbsent(Remove(cfg, s, j), k);
    } else {
      SameAlike(s, Remove(cfg, s, j), k);
    }
  }

  lemma AlikeTrans(s: State, s1: State, s2: State, k: Key)
    requires Alike(s, s1, k) && Alike(s1, s2, k)
    ensures Alike(s, s2, k)
  {
    hide ReplyTo;
  }

  /** A storing command is what it stores, and one victim less if it has to evict. */
  lemma EvictedOnly(cfg: Config, s: State, step: Step, k: Key)
    requires step.cmd.Stores()
    ensures Evicted(cfg, s, step, k) ==> Absent(After(cfg, s, step), k)
    ensures !Evicted(cfg, s, step, k) ==> Alike(Stored(cfg, s, step.cmd, step.now), After(cfg, s, step), k)
  {
    hide Stored, Victim, Absent, Alike, Remove;
    var s1 := Stored(cfg, s, step.cmd, step.now);
    RemovedAbsent(cfg, s1, Choice(cfg, s, step), k);
    SameAlike(s1, s1, k);
  }

  lemma StoredOthers(cfg: Config, s: State, cmd: Cmd, now: Time, k: Key)
    requires cmd.Stores() && k != cmd.key
    ensures Alike(s, Stored(cfg, s, cmd, now), k)
  {
    hide Recorded, Alike;
    SameAlike(s, Stored(cfg, s, cmd, now), k);
  }

  /** The frame of Set, SetWithTTL and HSet: every read of every other key gets the reply it got before, unless that
      key was evicted to make room; then it finds nothing. */
  lemma StoreLeavesOthers(cfg: Config, s: State, step: Step, k: Key)
    requires step.cmd.Stores() && k != step.cmd.key
    ensures Evicted(cfg, s, step, k) ==> Absent(After(cfg, s, step), k)
    ensures !Evicted(cfg, s, step, k) ==> Alike(s, After(cfg, s, step), k)
  {
    hide Stored, Absent, Alike, After, Evicted;
    EvictedOnly(cfg, s, step, k);
    StoredOthers(cfg, s, step.cmd, step.now, k);
    if !Evicted(cfg, s, step, k) {
      AlikeTrans(s, Stored(cfg, s, step.cmd, step.now), After(cfg, s, step), k);
    }
  }

  /** The key just stored is gone as a whole if it was evicted at once. */
  lemma StoreEvictsItself(cfg: Config, s: State, step: Step)
    requires step.cmd.Stores() && EvictsItself(cfg, s, step)
    ensures Absent(After(cfg, s, step), step.cmd.key)
  {
    EvictedOnly(cfg, s, step, step.cmd.key);
  }

  // ----- HSet

  /** A field just set is found if and only if its hash was not evicted by that very command, and no deadline of the
      hash has passed. */
  lemma HSetThenHGet(
    cfg: Config, s: State, h: Key, f: Key, v: Value, t: Time, order: seq<Key>, dice: nat, now: Time)
    ensures var step := Step(HSet(h, f, v), t, order, dice);
            ReplyTo(After(cfg, s, step), HGet(h, f), now) == One(Found(v))
            <==> !EvictsItself(cfg, s, step) && !Expired(s, h, now)
  {
    hide After, Recorded;
    var step := Step(HSet(h, f, v), t, order, dice);
    EvictedOnly(cfg, s, step, h);
    var s1 := Stored(cfg, s, step.cmd, t);
    assert s1.expireAt == s.expireAt && h in s1.hashes && Find(s1.hashes[h], f) == Found(v);
  }

  /** Of its own key, HSet changes that one field: the string, the deadline and the other fields are read as before,
      and the whole hash has that one entry changed. */
  lemma HSetLeaves(cfg: Config, s: State, h: Key, f: Key, v: Value, t: Time, order: seq<Key>, dice: nat, now: Time)
    requires !EvictsItself(cfg, s, Step(HSet(h, f, v), t, order, dice))
    ensures var s' := After(cfg, s, Step(HSet(h, f, v), t, order, dice));
            && ReplyTo(s', Get(h), now) == ReplyTo(s, Get(h), now)
            && ReplyTo(s', Ttl(h), now) == ReplyTo(s, Ttl(h), now)
            && (forall g :: g != f ==> ReplyTo(s', HGet(h, g), now) == ReplyTo(s, HGet(h, g), now))
            && ReplyTo(s', HGetAll(h), now)
            == if Expired(s, h, now) then Whole(false, map[])
               else Whole(true, ReplyTo(s, HGetAll(h), now).fields[f := v])
  {
    hide After, Recorded;
    EvictedOnly(cfg, s, Step(HSet(h, f, v), t, order, dice), h);
  }

  // ----- Set and SetWithTTL

  /** Of its own key, Set changes the string alone: hash and deadline are read as before. */
  lemma SetLeaves(cfg: Config, s: State, k: Key, v: Value, t: Time, order: seq<Key>, dice: nat, now: Time)
    requires !EvictsItself(cfg, s, Step(Set(k, v), t, order, dice))
    ensures var s' := After(cfg, s, Step(Set(k, v), t, order, dice));
            && ReplyTo(s', HGetAll(k), now) == ReplyTo(s, HGetAll(k), now)
            && ReplyTo(s', Ttl(k), now) == ReplyTo(s, Ttl(k), now)
            && forall f :: ReplyTo(s', HGet(k, f), now) == ReplyTo(s, HGet(k, f), now)
  {
    hide After, Recorded;
    EvictedOnly(cfg, s, Step(Set(k, v), t, order, dice), k);
  }

  /** A value set with a lifetime is found if and only if its key was not evicted at once and the lifetime, counted from
      the Set, is not over; the last moment still counts. Only then can it be told how much of it is left. */
  lemma SetWithTtlThenGet(
    cfg: Config, s: State, k: Key, v: Value, ttl: int, t: Time, order: seq<Key>, dice: nat, now: Time)
    ensures var step := Step(SetWithTtl(k, v, ttl), t, order, dice);
            ReplyTo(After(cfg, s, step), Get(k), now) == One(Found(v))
            <==> !EvictsItself(cfg, s, step) && now <= t + ttl
    ensures var step := Step(SetWithTtl(k, v, ttl), t, order, dice);
            ReplyTo(After(cfg, s, step), Ttl(k), now)
            == Left(if EvictsItself(cfg, s, step) || now >= t + ttl then -2 else t + ttl - now)
  {
    hide After, Recorded;
    EvictedOnly(cfg, s, Step(SetWithTtl(k, v, ttl), t, order, dice), k);
  }

  /** The hash under the same key gets the new deadline with it. */
  lemma SetWithTtlLeaves(
    cfg: Config, s: State, k: Key, v: Value, ttl: int, t: Time, order: seq<Key>, dice: nat, before: Time, now: Time)
    requires !EvictsItself(cfg, s, Step(SetWithTtl(k, v, ttl), t, order, dice)) && !Expired(s, k, before)
    ensures var s' := After(cfg, s, Step(SetWithTtl(k, v, ttl), t, order, dice));
            && ReplyTo(s', HGetAll(k), now)
            == (if now > t + ttl then Whole(false, map[]) else ReplyTo(s, HGetAll(k), before))
            && forall f ::
                 ReplyTo(s', HGet(k, f), now) == if now > t + ttl then One(Missing) else ReplyTo(s, HGet(k, f), before)
  {
    hide After, Recorded;
    EvictedOnly(cfg, s, Step(SetWithTtl(k, v, ttl), t, order, dice), k);
  }

  // ----- the other commands

  /** Del takes away the string, the hash and the deadline of its key, and nothing else. */
  lemma DelErases(cfg: Config, s: State, step: Step, k: Key)
    requires step.cmd.Del?
    ensures if k == step.cmd.key then Absent(After(cfg, s, step), k) else Alike(s, After(cfg, s, step), k)
  {
    hide Absent, Alike, Remove;
    RemovedAbsent(cfg, s, step.cmd.key, k);
  }

  /** Expire answers whether the key holds a string. Only then it changes something: of that key, string and fields are
      found until the new deadline, as they were before it. */
  lemma ExpireDates(
    cfg: Config, s: State, k: Key, ttl: int, t: Time, order: seq<Key>, dice: nat, before: Time, now: Time)
    requires !Expired(s, k, before)
    ensures var holds := ReplyTo(s, Get(k), before) != One(Missing);
            var s' := After(cfg, s, Step(Expire(k, ttl), t, order, dice));
            && ReplyTo(s, Expire(k, ttl), t) == Yes(holds)
            && (!holds ==> s' == s)
            && (holds ==>
                  && ReplyTo(s', Get(k), now) == (if now > t + ttl then One(Missing) else ReplyTo(s, Get(k), before))
                  && ReplyTo(s', Ttl(k), now) == Left(if now >= t + ttl then -2 else t + ttl - now)
                  && forall f :: ReplyTo(s', HGet(k, f), now)
                              == if now > t + ttl then One(Missing) else ReplyTo(s, HGet(k, f), before))
  {
  }

  lemma ExpireLeavesOthers(cfg: Config, s: State, step: Step, k: Key)
    requires step.cmd.Expire? && k != step.cmd.key
    ensures Alike(s, After(cfg, s, step), k)
  {
    hide Alike;
    SameAlike(s, After(cfg, s, step), k);
  }

  /** A read changes no reply to a later read of any key. */
  lemma ReadInvisible(cfg: Config, s: State, step: Step, cmd: Cmd, now: Time)
    requires step.cmd.Reads() && cmd.Reads() && step.now <= now
    ensures ReplyTo(After(cfg, s, step), cmd, now) == ReplyTo(s, cmd, now)
  {
    hide Recorded, Forgotten;
  }
}
