/** The eviction policies: what they record about keys and whom they evict. */
module Eviction {
  import opened Bytes

  datatype Kind = NoEviction | Lru | Lfu | Random | VolatileTtl

  type Time = nat

  /** What a policy remembers: access times for LRU, counts for LFU. */
  datatype Memory = Memory(access: map<Key, Time>, freq: map<Key, nat>)

  /** Go's map read: a missing key counts as zero, or the zero time. */
  function Score(m: map<Key, int>, k: Key): int {
    if k in m then m[k] else 0
  }

  /** The victim of a minimum search over the candidates in the order given: the first candidate,
      unless a later one with a score has a lower score. */
  function MinPick(m: map<Key, int>, order: seq<Key>): Key
    requires order != []
  {
    if |order| == 1 then order[0]
    else
      var best, k := MinPick(m, order[..|order| - 1]), order[|order| - 1];
      if k in m && m[k] < Score(m, best) then k else best
  }

  /** The victim has the lowest score of all candidates, whatever order they come in. */
  lemma {:induction false} MinPickIsLeast(m: map<Key, int>, order: seq<Key>)
    requires order != [] && forall k :: k in order ==> k in m
    ensures MinPick(m, order) in order
    ensures forall k :: k in order ==> m[MinPick(m, order)] <= m[k]
  {
    if |order| > 1 {
      var init := order[..|order| - 1];
      assert order == init + [order[|order| - 1]];
      MinPickIsLeast(m, init);
    }
  }

  lemma {:induction false} MinPickListed(m: map<Key, int>, order: seq<Key>)
    requires order != []
    ensures MinPick(m, order) in order
  {
    if |order| > 1 {
      MinPickListed(m, order[..|order| - 1]);
    }
  }

  /** When scores differ, the order of the candidates does not matter. */
  lemma MinPickUnique(m: map<Key, int>, order: seq<Key>, order': seq<Key>)
    requires order != [] && order' != [] && (forall k :: k in order <==> k in order')
    requires forall k :: k in order ==> k in m
    requires forall j, k :: j in order && k in order && j != k ==> m[j] != m[k]
    ensures MinPick(m, order) == MinPick(m, order')
  {
    MinPickIsLeast(m, order);
    MinPickIsLeast(m, order');
  }

  /** Remaining lifetimes at a given time. */
  function Remaining(expireAt: map<Key, int>, now: Time): map<Key, int> {
    map k | k in expireAt :: expireAt[k] - now
  }

  function Recorded(kind: Kind, mem: Memory, key: Key, now: Time): Memory {
    match kind
    case Lru => mem.(access := mem.access[key := now])
    case Lfu => mem.(freq := mem.freq[key := Score(mem.freq, key) + 1])
    case _ => mem
  }

  function Forgotten(kind: Kind, mem: Memory, key: Key): Memory {
    match kind
    case Lru => mem.(access := mem.access - {key})
    case Lfu => mem.(freq := mem.freq - {key})
    case _ => mem
  }

  /** Whom the policy evicts; the empty key stands for nobody. `dice` is the random draw. */
  function Victim(kind: Kind, mem: Memory, order: seq<Key>, expireAt: map<Key, int>, now: Time, dice: nat): Key {
    if order == [] then []
    else match kind
      case NoEviction => []
      case Lru => MinPick(mem.access, order)
      case Lfu => MinPick(mem.freq, order)
      case Random => order[dice % |order|]
      case VolatileTtl => MinPick(Remaining(expireAt, now), order)
  }

  class Policy {
    const kind: Kind
    var access: map<Key, Time>
    var freq: map<Key, nat>

    constructor (kind: Kind)
      ensures this.kind == kind && access == map[] && freq == map[]
    {
      this.kind := kind;
      access, freq := map[], map[];
    }

    function Mem(): Memory
      reads this
    {
      Memory(access, freq)
    }

    method Record(key: Key, now: Time)
      modifies this
      ensures Mem() == Recorded(kind, old(Mem()), key, now)
    {
      match kind
      case Lru => access := access[key := now];
      case Lfu => freq := freq[key := (if key in freq then freq[key] else 0) + 1];
      case _ =>
    }

    method Delete(key: Key)
      modifies this
      ensures Mem() == Forgotten(kind, old(Mem()), key)
    {
      match kind
      case Lru => access := access - {key};
      case Lfu => freq := freq - {key};
      case _ =>
    }

    method EvictLru(candidates: seq<Key>) returns (oldest: Key)
      requires candidates != []
      ensures oldest == MinPick(access, candidates)
    {
      oldest := candidates[0];
      var oldestTime := if oldest in access then access[oldest] else 0;
      for i := 1 to |candidates|
        invariant oldest == MinPick(access, candidates[..i]) && oldestTime == Score(access, oldest)
      {
        var key := candidates[i];
        assert candidates[..i + 1][..i] == candidates[..i];
        if key in access && access[key] < oldestTime {
          oldest, oldestTime := key, access[key];
        }
      }
      assert candidates[..|candidates|] == candidates;
    }

    method EvictLfu(candidates: seq<Key>) returns (lowest: Key)
      requires candidates != []
      ensures lowest == MinPick(freq, candidates)
    {
      lowest := candidates[0];
      var lowestFreq := if lowest in freq then freq[lowest] else 0;
      for i := 1 to |candidates|
        invariant lowest == MinPick(freq, candidates[..i]) && lowestFreq == Score(freq, lowest)
      {
        var key := candidates[i];
        assert candidates[..i + 1][..i] == candidates[..i];
        if key in freq && freq[key] < lowestFreq {
          lowest, lowestFreq := key, freq[key];
        }
      }
      assert candidates[..|candidates|] == candidates;
    }

    static method EvictTtl(candidates: seq<Key>, expireAt: map<Key, int>, now: Time) returns (nearest: Key)
      requires candidates != []
      ensures nearest == MinPick(Remaining(expireAt, now), candidates)
    {
      nearest := candidates[0];
      var nearestTtl := 0;
      if nearest in expireAt {
        nearestTtl := expireAt[nearest] - now;
      }
      for i := 1 to |candidates|
        invariant nearest == MinPick(Remaining(expireAt, now), candidates[..i])
        invariant nearestTtl == Score(Remaining(expireAt, now), nearest)
      {
        var key := candidates[i];
        assert candidates[..i + 1][..i] == candidates[..i];
        if key !in expireAt {
          continue;
        }
        var ttl := expireAt[key] - now;
        if ttl < nearestTtl {
          nearest, nearestTtl := key, ttl;
        }
      }
      assert candidates[..|candidates|] == candidates;
    }

    method Evict(candidates: seq<Key>, expireAt: map<Key, int>, now: Time) returns (victim: Key, ghost dice: nat)
      ensures victim == Victim(kind, Mem(), candidates, expireAt, now, dice)
    {
      dice := 0;
      if candidates == [] {
        return [], dice;
      }
      match kind
      case NoEviction => victim := [];
      case Lru => victim := EvictLru(candidates);
      case Lfu => victim := EvictLfu(candidates);
      case Random =>
        var roll: nat := *;
        dice := roll;
        victim := candidates[roll % |candidates|];
      case VolatileTtl => victim := EvictTtl(candidates, expireAt, now);
    }
  }
}
