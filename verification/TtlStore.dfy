/** The TTL store itself: a store wrapped with deadlines, tracked keys and an eviction policy. */
module TtlStore {
  import opened Bytes
  import opened Lookups
  import opened Eviction
  import opened TtlSpec

  /** Some listing of a set, for when nothing has to be listed. */
  ghost function SomeList(ks: set<Key>): (order: seq<Key>)
    ensures Lists(order, ks)
  {
    if ks == {} then []
    else
      var k :| k in ks;
      var rest := SomeList(ks - {k});
      rest + [k]
  }

  lemma NoneForgotten(kind: Kind, mem: Memory)
    ensures ForgottenAll(kind, mem, {}) == mem
  {
  }

  lemma ForgottenOneMore(kind: Kind, mem: Memory, ks: set<Key>, k: Key)
    ensures Forgotten(kind, ForgottenAll(kind, mem, ks), k) == ForgottenAll(kind, mem, ks + {k})
  {
    assert (mem.access - ks) - {k} == mem.access - (ks + {k});
    assert (mem.freq - ks) - {k} == mem.freq - (ks + {k});
  }

  /** Setting the deadline first and then the value is one step of the machine. */
  lemma DeadlineFirst(cfg: Config, s: State, k: Key, v: Value, ttl: int, now: Time, order: seq<Key>, dice: nat)
    ensures var s0 := s.(expireAt := s.expireAt[k := now + ttl]);
            && Stored(cfg, s0, Set(k, v), now) == Stored(cfg, s, SetWithTtl(k, v, ttl), now)
            && After(cfg, s0, Step(Set(k, v), now, order, dice)) ==
              After(cfg, s, Step(SetWithTtl(k, v, ttl), now, order, dice))
  {
  }

  class TTLStore {
    const policy: Policy
    const maxKeys: int
    var strings: map<Key, Value>
    var hashes: map<Key, Fields>
    var expireAt: map<Key, int>
    var allKeys: set<Key>

    ghost function Cfg(): Config {
      Config(policy.kind, maxKeys)
    }

    ghost function Current(): State
      reads this, policy
    {
      State(strings, hashes, expireAt, allKeys, policy.Mem())
    }

    constructor (kind: Kind, maxKeys: int)
      ensures Current() == EMPTY && Cfg() == Config(kind, maxKeys) && fresh(policy)
    {
      policy := new Policy(kind);
      this.maxKeys := maxKeys;
      strings, hashes, expireAt, allKeys := map[], map[], map[], {};
    }

    method DoTrack(key: Key, now: Time)
      modifies this, policy
      ensures Current() == Track(Cfg(), old(Current()), key, now)
    {
      allKeys := allKeys + {key};
      policy.Record(key, now);
    }

    /** Forgets a key and deletes it from the inner store. */
    method DoRemove(key: Key)
      modifies this, policy
      ensures Current() == Remove(Cfg(), old(Current()), key)
    {
      allKeys := allKeys - {key};
      expireAt := expireAt - {key};
      policy.Delete(key);
      strings, hashes := strings - {key}, hashes - {key};
    }

    /** The candidates for eviction, in no particular order. */
    method ListCandidates() returns (keys: seq<Key>)
      ensures Lists(keys, Candidates(Cfg(), Current()))
    {
      var rest := if policy.kind.VolatileTtl? then expireAt.Keys else allKeys;
      keys := [];
      while rest != {}
        invariant Lists(keys, Candidates(Cfg(), Current()) - rest) && rest <= Candidates(Cfg(), Current())
        decreases rest
      {
        var k :| k in rest;
        keys := keys + [k];
        rest := rest - {k};
      }
    }

    method DoEvictIfNeeded(now: Time) returns (ghost order: seq<Key>, ghost dice: nat)
      modifies this, policy
      ensures Lists(order, Candidates(Cfg(), old(Current())))
      ensures Current() == EvictIfNeeded(Cfg(), old(Current()), now, order, dice)
    {
      order, dice := SomeList(Candidates(Cfg(), Current())), 0;
      if !(maxKeys > 0 && |allKeys| > maxKeys) {
        return;
      }
      var candidates := ListCandidates();
      order := candidates;
      if |candidates| == 0 {
        return;
      }
      var key, d := policy.Evict(candidates, expireAt, now);
      dice := d;
      if key == [] {
        return;
      }
      DoRemove(key);
    }

    method DoSet(key: Key, value: Value, now: Time) returns (ghost order: seq<Key>, ghost dice: nat)
      modifies this, policy
      ensures var step := Step(Set(key, value), now, order, dice);
              Allowed(Cfg(), old(Current()), step) && Current() == After(Cfg(), old(Current()), step)
    {
      strings := strings[key := value];
      DoTrack(key, now);
      order, dice := DoEvictIfNeeded(now);
    }

    method DoSetWithTtl(key: Key, value: Value, ttl: int, now: Time) returns (ghost order: seq<Key>, ghost dice: nat)
      modifies this, policy
      ensures var step := Step(SetWithTtl(key, value, ttl), now, order, dice);
              Allowed(Cfg(), old(Current()), step) && Current() == After(Cfg(), old(Current()), step)
    {
      hide After, Stored;
      ghost var s := Current();
      expireAt := expireAt[key := now + ttl];
      order, dice := DoSet(key, value, now);
      DeadlineFirst(Cfg(), s, key, value, ttl, now, order, dice);
    }

    method DoHSet(hash: Key, field: Key, value: Value, now: Time) returns (ghost order: seq<Key>, ghost dice: nat)
      modifies this, policy
      ensures var step := Step(HSet(hash, field, value), now, order, dice);
              Allowed(Cfg(), old(Current()), step) && Current() == After(Cfg(), old(Current()), step)
    {
      var fields := if hash in hashes then hashes[hash] else map[];
      hashes := hashes[hash := fields[field := value]];
      DoTrack(hash, now);
      order, dice := DoEvictIfNeeded(now);
    }

    /** What every read does first: remove the key if its deadline passed, else record the access. */
    method Visit(key: Key, now: Time) returns (expired: bool)
      modifies this, policy
      ensures expired == Expired(old(Current()), key, now)
      ensures Current() == AfterRead(Cfg(), old(Current()), key, now)
    {
      expired := key in expireAt && now > expireAt[key];
      if expired {
        DoRemove(key);
      } else {
        policy.Record(key, now);
      }
    }

    method DoGet(key: Key, now: Time) returns (r: Lookup)
      modifies this, policy
      ensures One(r) == ReplyTo(old(Current()), Get(key), now)
      ensures Current() == After(Cfg(), old(Current()), Step(Get(key), now, [], 0))
    {
      var expired := Visit(key, now);
      if expired {
        return Missing;
      }
      return Find(strings, key);
    }

    method DoHGet(hash: Key, field: Key, now: Time) returns (r: Lookup)
      modifies this, policy
      ensures One(r) == ReplyTo(old(Current()), HGet(hash, field), now)
      ensures Current() == After(Cfg(), old(Current()), Step(HGet(hash, field), now, [], 0))
    {
      var expired := Visit(hash, now);
      if expired || hash !in hashes {
        return Missing;
      }
      return Find(hashes[hash], field);
    }

    method DoHGetAll(hash: Key, now: Time) returns (present: bool, fields: Fields)
      modifies this, policy
      ensures Whole(present, fields) == ReplyTo(old(Current()), HGetAll(hash), now)
      ensures Current() == After(Cfg(), old(Current()), Step(HGetAll(hash), now, [], 0))
    {
      var expired := Visit(hash, now);
      if expired || hash !in hashes {
        return false, map[];
      }
      return true, hashes[hash];
    }

    method DoDel(key: Key)
      modifies this, policy
      ensures forall now, order, dice :: Current() == After(Cfg(), old(Current()), Step(Del(key), now, order, dice))
    {
      DoRemove(key);
    }

    method DoExpire(key: Key, ttl: int, now: Time) returns (ok: bool)
      modifies this
      ensures Yes(ok) == ReplyTo(old(Current()), Expire(key, ttl), now)
      ensures Current() == After(Cfg(), old(Current()), Step(Expire(key, ttl), now, [], 0))
    {
      if key !in strings {
        return false;
      }
      expireAt := expireAt[key := now + ttl];
      return true;
    }

    method DoTtl(key: Key, now: Time) returns (ttl: int)
      ensures Left(ttl) == ReplyTo(Current(), Ttl(key), now)
    {
      if key !in expireAt {
        return -2;
      }
      var d := expireAt[key] - now;
      if d <= 0 {
        return -2;
      }
      return d;
    }

    method DoSweep(now: Time)
      modifies this, policy
      ensures Current() == Swept(Cfg(), old(Current()), now)
    {
      var expired := CollectExpired(now);
      DeleteExpired(expired);
    }

    /** Takes the keys past their deadlines off the books. */
    method CollectExpired(now: Time) returns (expired: set<Key>)
      modifies this
      ensures expired == set k | k in old(expireAt) && now > old(expireAt)[k]
      ensures Current() == old(Current()).(expireAt := old(expireAt) - expired, tracked := old(allKeys) - expired)
    {
      ghost var deadlines, keys := expireAt, allKeys;
      ghost var gone := set k | k in expireAt && now > expireAt[k];
      expired := {};
      var rest := expireAt.Keys;
      while rest != {}
        invariant rest <= deadlines.Keys && expired == gone - rest
        invariant expireAt == deadlines - expired && allKeys == keys - expired
        invariant strings == old(strings) && hashes == old(hashes)
        decreases rest
      {
        var key :| key in rest;
        if now > expireAt[key] {
          expired := expired + {key};
          expireAt := expireAt - {key};
          allKeys := allKeys - {key};
        }
        rest := rest - {key};
      }
      assert expired == gone;
    }

    /** Deletes keys from the policy and the inner store, one by one. */
    method DeleteExpired(expired: set<Key>)
      modifies this, policy
      ensures Current() == old(Current()).(strings := old(strings) - expired, hashes := old(hashes) - expired,
                                           mem := ForgottenAll(policy.kind, old(policy.Mem()), expired))
    {
      ghost var mem := policy.Mem();
      var rest := expired;
      NoneForgotten(policy.kind, mem);
      while rest != {}
        invariant rest <= expired && expireAt == old(expireAt) && allKeys == old(allKeys)
        invariant strings == old(strings) - (expired - rest) && hashes == old(hashes) - (expired - rest)
        invariant policy.Mem() == ForgottenAll(policy.kind, mem, expired - rest)
        decreases rest
      {
        var key :| key in rest;
        policy.Delete(key);
        ForgottenOneMore(policy.kind, mem, expired - rest, key);
        assert expired - (rest - {key}) == (expired - rest) + {key};
        strings, hashes := strings - {key}, hashes - {key};
        rest := rest - {key};
      }
      assert expired - rest == expired;
    }

    method KeyCount() returns (n: nat)
      ensures n == |Current().tracked|
    {
      n := |allKeys|;
    }
  }
}
