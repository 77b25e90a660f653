/** LRU has no Belady anomaly: a larger store keeps every key a smaller one keeps. */
module LruInclusion {
  import opened Bytes
  import opened Eviction
  import opened TtlSpec

  // ----- what LRU looks at: the tracked keys and their access times

  datatype Core = Core(tracked: set<Key>, access: map<Key, Time>)

  function CoreOf(s: State): Core {
    Core(s.tracked, s.mem.access)
  }

  function Touch(c: Core, k: Key, now: Time): Core {
    c.(access := c.access[k := now])
  }

  function Add(c: Core, k: Key, now: Time): Core {
    Core(c.tracked + {k}, c.access[k := now])
  }

  function Forget(c: Core, k: Key): Core {
    Core(c.tracked - {k}, c.access - {k})
  }

  /** The keys left after evicting when over the limit. */
  function Trim(c: Core, limit: nat, order: seq<Key>): Core
    requires order != []
  {
    if |c.tracked| > limit then Forget(c, MinPick(c.access, order)) else c
  }

  /** Every tracked key was last used at a time of its own, up to `last`. */
  ghost predicate Timed(c: Core, last: Time) {
    && c.tracked <= c.access.Keys && [] !in c.tracked
    && (forall x :: x in c.tracked ==> c.access[x] <= last)
    && (forall x, y :: x in c.tracked && y in c.tracked && x != y ==> c.access[x] != c.access[y])
  }

  /** The smaller store's keys are among the larger one's, with the same access times, and the larger
      store holds at most as many keys more as it has room for more. */
  ghost predicate Inside(a: Core, b: Core, slack: int) {
    && a.tracked <= b.tracked && a.tracked <= a.access.Keys && b.tracked <= b.access.Keys
    && |b.tracked| - |a.tracked| <= slack
    && (forall x :: x in a.tracked ==> a.access[x] == b.access[x])
  }

  lemma AddSize(s: set<Key>, k: Key)
    ensures |s + {k}| == |s| + if k in s then 0 else 1
  {
    assert k in s ==> s + {k} == s;
  }

  lemma TimedTouch(c: Core, last: Time, k: Key, now: Time)
    requires Timed(c, last) && now > last
    ensures Timed(Touch(c, k, now), now) && (k != [] ==> Timed(Add(c, k, now), now))
  {
  }

  lemma TimedForget(c: Core, last: Time, k: Key, now: Time)
    requires Timed(c, last) && now >= last
    ensures Timed(Forget(c, k), now)
  {
  }

  lemma InsideTouch(a: Core, b: Core, slack: int, k: Key, now: Time)
    requires Inside(a, b, slack)
    ensures Inside(Touch(a, k, now), Touch(b, k, now), slack) && Inside(Add(a, k, now), Add(b, k, now), slack)
  {
    AddSize(a.tracked, k);
    AddSize(b.tracked, k);
  }

  lemma InsideForget(a: Core, b: Core, slack: int, k: Key)
    requires Inside(a, b, slack)
    ensures Inside(Forget(a, k), Forget(b, k), slack)
  {
  }

  lemma TrimWithin(c: Core, limit: nat, order: seq<Key>, now: Time)
    requires order != [] && Lists(order, c.tracked) && Timed(c, now) && |c.tracked| <= limit + 1
    ensures |Trim(c, limit, order).tracked| <= limit && Timed(Trim(c, limit, order), now)
  {
    MinPickIsLeast(c.access, order);
    TimedForget(c, now, MinPick(c.access, order), now);
    assert |c.tracked - {MinPick(c.access, order)}| == |c.tracked| - 1;
  }

  /** If the larger store has to evict then so does the smaller one, and the larger one's victim is not
      among the keys the smaller one keeps. */
  lemma TrimInside(k: nat, k': nat, a: Core, b: Core, now: Time, order: seq<Key>, order': seq<Key>)
    requires k <= k' && Inside(a, b, k' - k) && Timed(a, now) && Timed(b, now)
    requires |a.tracked| <= k + 1 && |b.tracked| <= k' + 1
    requires Lists(order, a.tracked) && Lists(order', b.tracked) && order != [] && order' != []
    ensures Inside(Trim(a, k, order), Trim(b, k', order'), k' - k)
  {
    var v, w := MinPick(a.access, order), MinPick(b.access, order');
    MinPickIsLeast(a.access, order);
    MinPickIsLeast(b.access, order');
    assert |a.tracked - {v}| == |a.tracked| - 1 && |b.tracked - {w}| == |b.tracked| - 1;
    if |b.tracked| > k' {
      assert |a.tracked| > k;
      assert w in a.tracked ==> w == v;
    }
  }

  // ----- what the store's steps do to it

  /** Commands without deadlines, on non-empty keys. */
  predicate Plain(cmd: Cmd) {
    (cmd.Set? || cmd.HSet? || cmd.Get? || cmd.HGet? || cmd.HGetAll? || cmd.Del?) && (cmd.Stores() ==> cmd.key != [])
  }

  lemma StoredCore(k: nat, s: State, cmd: Cmd, now: Time)
    requires Plain(cmd) && cmd.Stores() && s.expireAt == map[]
    ensures var s1 := Stored(Config(Lru, k), s, cmd, now);
            CoreOf(s1) == Add(CoreOf(s), cmd.key, now) && s1.expireAt == map[]
  {
  }

  lemma EvictedCore(k: nat, s: State, now: Time, order: seq<Key>)
    requires k >= 1 && Timed(CoreOf(s), now) && s.expireAt == map[] && order != [] && Lists(order, s.tracked)
    ensures var e := EvictIfNeeded(Config(Lru, k), s, now, order, 0);
            CoreOf(e) == Trim(CoreOf(s), k, order) && e.expireAt == map[]
  {
    MinPickIsLeast(s.mem.access, order);
  }

  lemma StoreCore(k: nat, s: State, x: Step, last: Time)
    requires k >= 1 && s.expireAt == map[] && Timed(CoreOf(s), last)
    requires Plain(x.cmd) && x.cmd.Stores() && x.now > last && Allowed(Config(Lru, k), s, x) && x.dice == 0
    ensures var c := Add(CoreOf(s), x.cmd.key, x.now);
            && x.order != [] && Lists(x.order, c.tracked) && Timed(c, x.now)
            && CoreOf(After(Config(Lru, k), s, x)) == Trim(c, k, x.order)
            && After(Config(Lru, k), s, x).expireAt == map[]
  {
    hide Stored, EvictIfNeeded, Timed;
    var s1 := Stored(Config(Lru, k), s, x.cmd, x.now);
    StoredCore(k, s, x.cmd, x.now);
    TimedTouch(CoreOf(s), last, x.cmd.key, x.now);
    assert x.cmd.key in s1.tracked;
    assert x.cmd.key in x.order;
    EvictedCore(k, s1, x.now, x.order);
  }

  lemma OtherCore(k: nat, s: State, x: Step)
    requires Plain(x.cmd) && !x.cmd.Stores() && s.expireAt == map[]
    ensures var s' := After(Config(Lru, k), s, x);
            && CoreOf(s') == (if x.cmd.Del? then Forget(CoreOf(s), x.cmd.key) else Touch(CoreOf(s), x.cmd.key, x.now))
            && s'.expireAt == map[]
  {
  }

  // ----- two stores side by side

  /** One command given to both stores; each lists its candidates in an order of its own. */
  datatype Both = Both(cmd: Cmd, now: Time, order: seq<Key>, order': seq<Key>)

  function Small(x: Both): Step {
    Step(x.cmd, x.now, x.order, 0)
  }

  function Large(x: Both): Step {
    Step(x.cmd, x.now, x.order', 0)
  }

  ghost predicate PlainRun(k: nat, k': nat, a: State, b: State, xs: seq<Both>, last: Time)
    decreases xs
  {
    xs != [] ==>
      && Plain(xs[0].cmd) && xs[0].now > last
      && Allowed(Config(Lru, k), a, Small(xs[0])) && Allowed(Config(Lru, k'), b, Large(xs[0]))
      && PlainRun(k, k', After(Config(Lru, k), a, Small(xs[0])), After(Config(Lru, k'), b, Large(xs[0])), xs[1..],
                  xs[0].now)
  }

  ghost function SmallRun(k: nat, a: State, xs: seq<Both>): State
    decreases xs
  {
    if xs == [] then a else SmallRun(k, After(Config(Lru, k), a, Small(xs[0])), xs[1..])
  }

  ghost function LargeRun(k: nat, b: State, xs: seq<Both>): State
    decreases xs
  {
    if xs == [] then b else LargeRun(k, After(Config(Lru, k), b, Large(xs[0])), xs[1..])
  }

  ghost predicate Related(k: nat, k': nat, a: State, b: State, last: Time) {
    && 1 <= k <= k' && Inside(CoreOf(a), CoreOf(b), k' - k) && Timed(CoreOf(a), last) && Timed(CoreOf(b), last)
    && |a.tracked| <= k && |b.tracked| <= k' && a.expireAt == map[] && b.expireAt == map[]
  }

  lemma StoreRelated(k: nat, k': nat, a: State, b: State, x: Both, last: Time)
    requires Related(k, k', a, b, last) && Plain(x.cmd) && x.cmd.Stores() && x.now > last
    requires Allowed(Config(Lru, k), a, Small(x)) && Allowed(Config(Lru, k'), b, Large(x))
    ensures Related(k, k', After(Config(Lru, k), a, Small(x)), After(Config(Lru, k'), b, Large(x)), x.now)
  {
    hide After, Allowed, Lists, Trim, Inside, Timed;
    var c, d := Add(CoreOf(a), x.cmd.key, x.now), Add(CoreOf(b), x.cmd.key, x.now);
    StoreCore(k, a, Small(x), last);
    StoreCore(k', b, Large(x), last);
    AddSize(a.tracked, x.cmd.key);
    AddSize(b.tracked, x.cmd.key);
    InsideTouch(CoreOf(a), CoreOf(b), k' - k, x.cmd.key, x.now);
    TrimWithin(c, k, x.order, x.now);
    TrimWithin(d, k', x.order', x.now);
    TrimInside(k, k', c, d, x.now, x.order, x.order');
  }

  lemma OtherRelated(k: nat, k': nat, a: State, b: State, x: Both, last: Time)
    requires Related(k, k', a, b, last) && Plain(x.cmd) && !x.cmd.Stores() && x.now > last
    ensures Related(k, k', After(Config(Lru, k), a, Small(x)), After(Config(Lru, k'), b, Large(x)), x.now)
  {
    hide After, Inside, Timed;
    OtherCore(k, a, Small(x));
    OtherCore(k', b, Large(x));
    InsideForget(CoreOf(a), CoreOf(b), k' - k, x.cmd.key);
    InsideTouch(CoreOf(a), CoreOf(b), k' - k, x.cmd.key, x.now);
    TimedForget(CoreOf(a), last, x.cmd.key, x.now);
    TimedForget(CoreOf(b), last, x.cmd.key, x.now);
    TimedTouch(CoreOf(a), last, x.cmd.key, x.now);
    TimedTouch(CoreOf(b), last, x.cmd.key, x.now);
  }

  lemma {:induction false} RunRelated(k: nat, k': nat, a: State, b: State, xs: seq<Both>, last: Time)
    requires Related(k, k', a, b, last) && PlainRun(k, k', a, b, xs, last)
    ensures SmallRun(k, a, xs).tracked <= LargeRun(k', b, xs).tracked
    decreases xs
  {
    hide After, Allowed, Plain, Timed;
    if xs != [] {
      var x := xs[0];
      if x.cmd.Stores() {
        StoreRelated(k, k', a, b, x, last);
      } else {
        OtherRelated(k, k', a, b, x, last);
      }
      RunRelated(k, k', After(Config(Lru, k), a, Small(x)), After(Config(Lru, k'), b, Large(x)), xs[1..], x.now);
    }
  }

  /** From empty stores, on any run of commands without deadlines, with non-empty keys and a clock that
      always advances, the keys kept with limit k are among those kept with limit k' >= k >= 1. */
  lemma NoBeladyAnomaly(k: nat, k': nat, xs: seq<Both>)
    requires 1 <= k <= k' && PlainRun(k, k', EMPTY, EMPTY, xs, 0)
    ensures SmallRun(k, EMPTY, xs).tracked <= LargeRun(k', EMPTY, xs).tracked
  {
    RunRelated(k, k', EMPTY, EMPTY, xs, 0);
  }
}
