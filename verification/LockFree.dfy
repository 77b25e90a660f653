/** The lock-free store as a system of threads: every thread loads a bucket pointer, edits a private
    copy of the bucket, and publishes it by compare-and-swap, starting over when it lost the race.
    A schedule is any sequence of steps; the log records what happened in order. */
module LockFree {
  import opened Bytes
  import opened Lookups
  import opened Tables

  datatype Cmd =
    | Put(key: Key, value: Value)
    | Drop(key: Key)
    | HPut(key: Key, field: Key, value: Value)
    | Read(key: Key)
    | HRead(key: Key, field: Key)
    | HReadAll(key: Key)
  {
    /** Whether the command publishes a new bucket. */
    predicate Writes() {
      Put? || Drop? || HPut?
    }
  }

  datatype Answer = Written | One(lookup: Lookup) | Whole(present: bool, fields: Fields)

  /** What a command does to the data it sees, as a plain map store does it. */
  function Effect(d: Tables, c: Cmd): Tables {
    match c
    case Put(k, v) => SetString(d, k, v)
    case Drop(k) => Remove(d, k)
    case HPut(h, f, v) => SetField(d, h, f, v)
    case _ => d
  }

  function AnswerOf(d: Tables, c: Cmd): Answer {
    match c
    case Read(k) => One(Find(d.strings, k))
    case HRead(h, f) => One(if h in d.hashes then Find(d.hashes[h], f) else Missing)
    case HReadAll(h) => if h in d.hashes then Whole(true, d.hashes[h]) else Whole(false, map[])
    case _ => Written
  }

  // ----- the system

  /** `seen` is the address loaded, `copy` the edited private copy. */
  datatype Thread =
    | Idle
    | Trying(cmd: Cmd)
    | Loaded(cmd: Cmd, seen: nat)
    | Prepared(cmd: Cmd, seen: nat, copy: Tables)
    | Finished(cmd: Cmd, answer: Answer)

  datatype Event =
    | Called(t: nat, cmd: Cmd)
    | TookEffect(t: nat, cmd: Cmd, answer: Answer)
    | LostRace(t: nat, cmd: Cmd)
    | Returned(t: nat, cmd: Cmd, answer: Answer)

  /** `cells` are the buckets published so far, by address; `tops` the address each bucket pointer holds. */
  datatype State = State(cells: seq<Tables>, tops: seq<nat>, threads: seq<Thread>, log: seq<Event>)

  datatype Step = Call(t: nat, cmd: Cmd) | Load(t: nat) | Copy(t: nat) | Swap(t: nat) | Look(t: nat) | Return(t: nat)

  /** Where keys live: `n` buckets, and the bucket of every key. */
  datatype Layout = Layout(n: nat, home: Key -> nat)

  ghost predicate Fits(l: Layout) {
    forall k :: l.home(k) < l.n
  }

  ghost function Start(l: Layout, threads: nat): State {
    State(seq(l.n, _ => EMPTY), seq(l.n, b => b), seq(threads, _ => Idle), [])
  }

  /** One step of one thread; a step that is not enabled changes nothing. */
  ghost function Next(l: Layout, s: State, step: Step): State {
    if step.t >= |s.threads| then s
    else
      var t, me := step.t, s.threads[step.t];
      match step
      case Call(_, c) =>
        if me.Idle? then s.(threads := s.threads[t := Trying(c)], log := s.log + [Called(t, c)]) else s
      case Load(_) =>
        if me.Trying? && me.cmd.Writes() && Ready(l, s, me.cmd) then
          s.(threads := s.threads[t := Loaded(me.cmd, s.tops[l.home(me.cmd.key)])])
        else s
      case Copy(_) =>
        if me.Loaded? && me.seen < |s.cells| then
          s.(threads := s.threads[t := Prepared(me.cmd, me.seen, Effect(s.cells[me.seen], me.cmd))])
        else s
      case Swap(_) =>
        if me.Prepared? && Ready(l, s, me.cmd) then
          var b := l.home(me.cmd.key);
          if s.tops[b] == me.seen then
            State(s.cells + [me.copy], s.tops[b := |s.cells|], s.threads[t := Finished(me.cmd, Written)],
                  s.log + [TookEffect(t, me.cmd, Written)])
          else s.(threads := s.threads[t := Trying(me.cmd)], log := s.log + [LostRace(t, me.cmd)])
        else s
      case Look(_) =>
        if me.Trying? && !me.cmd.Writes() && Ready(l, s, me.cmd) then
          var ans := AnswerOf(s.cells[s.tops[l.home(me.cmd.key)]], me.cmd);
          s.(threads := s.threads[t := Finished(me.cmd, ans)], log := s.log + [TookEffect(t, me.cmd, ans)])
        else s
      case Return(_) =>
        if me.Finished? then s.(threads := s.threads[t := Idle], log := s.log + [Returned(t, me.cmd, me.answer)]) else s
  }

  /** The bucket pointer of the command is there to be loaded. */
  ghost predicate Ready(l: Layout, s: State, c: Cmd) {
    l.home(c.key) < |s.tops| && s.tops[l.home(c.key)] < |s.cells|
  }

  ghost function Run(l: Layout, s: State, steps: seq<Step>): State
    decreases steps
  {
    if steps == [] then s else Run(l, Next(l, s, steps[0]), steps[1..])
  }

  // ----- the sequential history in the log

  /** The data after all commands in the log took effect one after the other. */
  ghost function History(log: seq<Event>): Tables {
    if log == [] then EMPTY
    else
      var before, e := History(log[..|log| - 1]), log[|log| - 1];
      if e.TookEffect? then Effect(before, e.cmd) else before
  }

  /** Every command was answered as a sequential map store would have, at the point where it took effect. */
  ghost predicate Sequential(log: seq<Event>) {
    forall i :: 0 <= i < |log| && log[i].TookEffect? ==> log[i].answer == AnswerOf(History(log[..i]), log[i].cmd)
  }

  /** What a thread has done so far, as far as its place in its current call goes. */
  ghost function Place(log: seq<Event>, t: nat): Thread
  {
    if log == [] then Idle
    else
      var e := log[|log| - 1];
      if e.t != t then Place(log[..|log| - 1], t)
      else match e
        case Called(_, c) => Trying(c)
        case TookEffect(_, c, a) => Finished(c, a)
        case LostRace(_, c) => Trying(c)
        case Returned(_, _, _) => Idle
  }

  /** In the log every call takes effect exactly once, after it was made and before it returns,
      and returns the answer it got when it took effect. */
  ghost predicate Bracketed(log: seq<Event>) {
    forall i :: 0 <= i < |log| ==> InOrder(Place(log[..i], log[i].t), log[i])
  }

  ghost predicate InOrder(before: Thread, e: Event) {
    match e
    case Called(_, _) => before.Idle?
    case TookEffect(_, c, _) => before == Trying(c)
    case LostRace(_, c) => before == Trying(c)
    case Returned(_, c, a) => before == Finished(c, a)
  }

  /** The thread is where the log says, give or take a private copy. */
  ghost predicate AtPlace(me: Thread, place: Thread) {
    if me.Loaded? || me.Prepared? then place == Trying(me.cmd) else place == me
  }

  /** The published buckets hold what the sequential history says. */
  ghost predicate Agrees(l: Layout, s: State, d: Tables)
    requires Fits(l) && |s.tops| == l.n && forall b :: 0 <= b < l.n ==> s.tops[b] < |s.cells|
  {
    forall k :: SameAt(k, s.cells[s.tops[l.home(k)]], d)
  }

  ghost predicate SameAt(k: Key, x: Tables, y: Tables) {
    && Find(x.strings, k) == Find(y.strings, k)
    && (k in x.hashes <==> k in y.hashes) && (k in x.hashes ==> x.hashes[k] == y.hashes[k])
  }

  ghost predicate Inv(l: Layout, s: State) {
    && Fits(l) && |s.tops| == l.n && (forall b :: 0 <= b < l.n ==> s.tops[b] < |s.cells|)
    && (forall t :: 0 <= t < |s.threads| ==> ThreadOk(l, s, t))
    && Sequential(s.log) && Bracketed(s.log) && Agrees(l, s, History(s.log))
  }

  ghost predicate ThreadOk(l: Layout, s: State, t: nat)
    requires t < |s.threads|
  {
    var me := s.threads[t];
    && AtPlace(me, Place(s.log, t))
    && (me.Loaded? || me.Prepared? ==> me.cmd.Writes() && me.seen < |s.cells|)
    && (me.Prepared? ==> me.copy == Effect(s.cells[me.seen], me.cmd))
  }

  // ----- commands act on their own key only, and alike on agreeing data

  lemma EffectLocal(d: Tables, c: Cmd, k: Key)
    requires k != c.key
    ensures SameAt(k, Effect(d, c), d)
  {
  }

  lemma EffectAlike(x: Tables, y: Tables, c: Cmd)
    requires SameAt(c.key, x, y)
    ensures SameAt(c.key, Effect(x, c), Effect(y, c)) && AnswerOf(x, c) == AnswerOf(y, c)
  {
  }

  // ----- every step keeps the invariant

  /** One more event in the log. */
  lemma LogGrows(log: seq<Event>, e: Event)
    requires Sequential(log) && Bracketed(log)
    requires e.TookEffect? ==> e.answer == AnswerOf(History(log), e.cmd)
    requires InOrder(Place(log, e.t), e)
    ensures Sequential(log + [e]) && Bracketed(log + [e])
    ensures History(log + [e]) == if e.TookEffect? then Effect(History(log), e.cmd) else History(log)
    ensures forall t: nat :: t != e.t ==> Place(log + [e], t) == Place(log, t)
  {
    var log' := log + [e];
    assert log'[..|log|] == log && log'[|log|] == e;
    forall i | 0 <= i < |log| ensures log'[..i] == log[..i] && log'[i] == log[i] { }
  }

  /** The thread of the newest event is where that event puts it. */
  lemma PlaceGrows(log: seq<Event>, e: Event)
    ensures Place(log + [e], e.t) == match e
                                     case Called(_, c) => Trying(c)
                                     case TookEffect(_, c, a) => Finished(c, a)
                                     case LostRace(_, c) => Trying(c)
                                     case Returned(_, _, _) => Idle
  {
    assert (log + [e])[|log|] == e;
  }

  lemma StartKeeps(l: Layout, threads: nat)
    requires Fits(l)
    ensures Inv(l, Start(l, threads))
  {
  }

  /** A command takes effect on the current bucket of its key, and on the history at the same time. */
  lemma EffectAgrees(l: Layout, s: State, d: Tables, c: Cmd)
    requires Fits(l) && |s.tops| == l.n && (forall b :: 0 <= b < l.n ==> s.tops[b] < |s.cells|) && Agrees(l, s, d)
    ensures var b := l.home(c.key);
            var s' := s.(cells := s.cells + [Effect(s.cells[s.tops[b]], c)], tops := s.tops[b := |s.cells|]);
            Agrees(l, s', Effect(d, c))
  {
    var b := l.home(c.key);
    var s' := s.(cells := s.cells + [Effect(s.cells[s.tops[b]], c)], tops := s.tops[b := |s.cells|]);
    forall k ensures SameAt(k, s'.cells[s'.tops[l.home(k)]], Effect(d, c)) {
      assert SameAt(k, s.cells[s.tops[l.home(k)]], d);
      if k == c.key {
        EffectAlike(s.cells[s.tops[b]], d, c);
      } else {
        EffectLocal(d, c, k);
        EffectLocal(s.cells[s.tops[b]], c, k);
      }
    }
  }

  /** Agreement is about the buckets only. */
  lemma SameBuckets(l: Layout, s: State, s': State, d: Tables)
    requires Fits(l) && |s.tops| == l.n && (forall b :: 0 <= b < l.n ==> s.tops[b] < |s.cells|) && Agrees(l, s, d)
    requires s'.cells == s.cells && s'.tops == s.tops
    ensures Agrees(l, s', d)
  {
  }

  /** The swap goes through: the command takes effect on the current bucket. */
  lemma WinKeeps(l: Layout, s: State, t: nat)
    requires Inv(l, s) && t < |s.threads| && s.threads[t].Prepared?
    requires s.tops[l.home(s.threads[t].cmd.key)] == s.threads[t].seen
    ensures Inv(l, Next(l, s, Swap(t)))
  {
    hide Sequential, Bracketed, Agrees, History, Effect;
    var me, s' := s.threads[t], Next(l, s, Swap(t));
    var e := TookEffect(t, me.cmd, Written);
    assert ThreadOk(l, s, t);
    LogGrows(s.log, e);
    EffectAgrees(l, s, History(s.log), me.cmd);
    SameBuckets(l, s'.(threads := s.threads, log := s.log), s', Effect(History(s.log), me.cmd));
    PlaceGrows(s.log, e);
    OthersKeep(l, s, s', t);
  }

  /** The swap fails: only the thread's own place changes. */
  lemma LoseKeeps(l: Layout, s: State, t: nat)
    requires Inv(l, s) && t < |s.threads| && s.threads[t].Prepared?
    requires s.tops[l.home(s.threads[t].cmd.key)] != s.threads[t].seen
    ensures Inv(l, Next(l, s, Swap(t)))
  {
    hide Sequential, Bracketed, Agrees, History, Effect;
    var me, s' := s.threads[t], Next(l, s, Swap(t));
    var e := LostRace(t, me.cmd);
    assert ThreadOk(l, s, t);
    LogGrows(s.log, e);
    SameBuckets(l, s, s', History(s.log));
    PlaceGrows(s.log, e);
    OthersKeep(l, s, s', t);
  }

  lemma SwapKeeps(l: Layout, s: State, t: nat)
    requires Inv(l, s) && t < |s.threads| && s.threads[t].Prepared?
    ensures Inv(l, Next(l, s, Swap(t)))
  {
    hide Sequential, Bracketed, Agrees, History, Effect, ThreadOk, Next;
    if s.tops[l.home(s.threads[t].cmd.key)] == s.threads[t].seen {
      WinKeeps(l, s, t);
    } else {
      LoseKeeps(l, s, t);
    }
  }

  /** A read answers from the current bucket, as the history would. */
  lemma LookAnswers(l: Layout, s: State, c: Cmd)
    requires Inv(l, s)
    ensures AnswerOf(s.cells[s.tops[l.home(c.key)]], c) == AnswerOf(History(s.log), c)
  {
    hide Sequential, Bracketed, History, Effect, ThreadOk;
    var x := s.cells[s.tops[l.home(c.key)]];
    assert SameAt(c.key, x, History(s.log));
    EffectAlike(x, History(s.log), c);
  }

  /** A read takes effect on the history without changing it. */
  lemma ReadChangesNothing(d: Tables, c: Cmd)
    requires !c.Writes()
    ensures Effect(d, c) == d
  {
  }

  lemma LookKeeps(l: Layout, s: State, t: nat)
    requires Inv(l, s) && t < |s.threads| && s.threads[t].Trying? && !s.threads[t].cmd.Writes()
    ensures Inv(l, Next(l, s, Look(t)))
  {
    hide Sequential, Bracketed, Agrees, History, Effect, AnswerOf;
    var me, s' := s.threads[t], Next(l, s, Look(t));
    var e := TookEffect(t, me.cmd, AnswerOf(s.cells[s.tops[l.home(me.cmd.key)]], me.cmd));
    assert ThreadOk(l, s, t);
    LookAnswers(l, s, me.cmd);
    LogGrows(s.log, e);
    ReadChangesNothing(History(s.log), me.cmd);
    SameBuckets(l, s, s', History(s.log));
    PlaceGrows(s.log, e);
    OthersKeep(l, s, s', t);
  }

  lemma CallKeeps(l: Layout, s: State, t: nat, c: Cmd)
    requires Inv(l, s) && t < |s.threads| && s.threads[t].Idle?
    ensures Inv(l, Next(l, s, Call(t, c)))
  {
    hide Sequential, Bracketed, Agrees, History, Effect;
    var s', e := Next(l, s, Call(t, c)), Called(t, c);
    assert ThreadOk(l, s, t);
    LogGrows(s.log, e);
    SameBuckets(l, s, s', History(s.log));
    PlaceGrows(s.log, e);
    OthersKeep(l, s, s', t);
  }

  lemma ReturnKeeps(l: Layout, s: State, t: nat)
    requires Inv(l, s) && t < |s.threads| && s.threads[t].Finished?
    ensures Inv(l, Next(l, s, Return(t)))
  {
    hide Sequential, Bracketed, Agrees, History, Effect;
    var s', e := Next(l, s, Return(t)), Returned(t, s.threads[t].cmd, s.threads[t].answer);
    assert ThreadOk(l, s, t);
    LogGrows(s.log, e);
    SameBuckets(l, s, s', History(s.log));
    PlaceGrows(s.log, e);
    OthersKeep(l, s, s', t);
  }

  /** Loading and copying are private. */
  lemma PrivateKeeps(l: Layout, s: State, step: Step)
    requires Inv(l, s) && step.t < |s.threads| && (step.Load? || step.Copy?)
    ensures Inv(l, Next(l, s, step))
  {
    hide Sequential, Bracketed, Agrees, History, Effect, Place;
    var s' := Next(l, s, step);
    assert ThreadOk(l, s, step.t);
    SameBuckets(l, s, s', History(s.log));
    OthersKeep(l, s, s', step.t);
  }

  /** The other threads stay in order when one moves. */
  lemma OthersKeep(l: Layout, s: State, s': State, t: nat)
    requires |s'.threads| == |s.threads| && s.cells <= s'.cells && t < |s.threads|
    requires forall u :: 0 <= u < |s.threads| ==> ThreadOk(l, s, u)
    requires forall u :: 0 <= u < |s.threads| && u != t ==>
               s'.threads[u] == s.threads[u] && Place(s'.log, u) == Place(s.log, u)
    requires ThreadOk(l, s', t)
    ensures forall u :: 0 <= u < |s'.threads| ==> ThreadOk(l, s', u)
  {
    forall u | 0 <= u < |s'.threads| && u != t ensures ThreadOk(l, s', u) {
      assert ThreadOk(l, s, u);
    }
  }

  lemma NextKeeps(l: Layout, s: State, step: Step)
    requires Inv(l, s)
    ensures Inv(l, Next(l, s, step)) && s.cells <= Next(l, s, step).cells
    ensures |Next(l, s, step).threads| == |s.threads|
  {
    hide Inv;
    if step.t < |s.threads| {
      var me := s.threads[step.t];
      match step
      case Swap(t) => if me.Prepared? { SwapKeeps(l, s, t); }
      case Look(t) => if me.Trying? && !me.cmd.Writes() { LookKeeps(l, s, t); }
      case Call(t, c) => if me.Idle? { CallKeeps(l, s, t, c); }
      case Return(t) => if me.Finished? { ReturnKeeps(l, s, t); }
      case _ => PrivateKeeps(l, s, step);
    }
  }

  /** Linearizability: in every schedule of any number of threads, every call took effect once between
      its call and its return, and all answers are those of one sequential map history, in that order.
      Buckets once published never change. */
  lemma {:induction false} Linearizable(l: Layout, s: State, steps: seq<Step>)
    requires Inv(l, s)
    ensures Inv(l, Run(l, s, steps)) && s.cells <= Run(l, s, steps).cells
    ensures |Run(l, s, steps).threads| == |s.threads|
    decreases steps
  {
    hide Inv;
    if steps != [] {
      NextKeeps(l, s, steps[0]);
      Linearizable(l, Next(l, s, steps[0]), steps[1..]);
    }
  }

  /** The same from an empty store. */
  lemma EveryRun(l: Layout, threads: nat, steps: seq<Step>)
    requires Fits(l)
    ensures var s := Run(l, Start(l, threads), steps);
            Sequential(s.log) && Bracketed(s.log) && Inv(l, s)
  {
    StartKeeps(l, threads);
    Linearizable(l, Start(l, threads), steps);
  }

  // ----- the retry bound

  /** Lost races and published writes on bucket `b`. */
  ghost function Lost(l: Layout, log: seq<Event>, b: nat): nat {
    if log == [] then 0
    else
      var e := log[|log| - 1];
      Lost(l, log[..|log| - 1], b) + if e.LostRace? && l.home(e.cmd.key) == b then 1 else 0
  }

  ghost function Won(l: Layout, log: seq<Event>, b: nat): nat {
    if log == [] then 0
    else
      var e := log[|log| - 1];
      Won(l, log[..|log| - 1], b) + if e.TookEffect? && e.cmd.Writes() && l.home(e.cmd.key) == b then 1 else 0
  }

  lemma CountGrows(l: Layout, log: seq<Event>, e: Event, b: nat)
    ensures Lost(l, log + [e], b) == Lost(l, log, b) + if e.LostRace? && l.home(e.cmd.key) == b then 1 else 0
    ensures Won(l, log + [e], b) == Won(l, log, b) +
              if e.TookEffect? && e.cmd.Writes() && l.home(e.cmd.key) == b then 1 else 0
  {
    assert (log + [e])[..|log|] == log;
  }

  /** Threads that loaded bucket `b` before it last changed: each of them is bound to lose its race once. */
  ghost predicate IsStale(l: Layout, s: State, b: nat, t: nat)
    requires t < |s.threads|
  {
    var me := s.threads[t];
    (me.Loaded? || me.Prepared?) && l.home(me.cmd.key) == b && b < |s.tops| && s.tops[b] != me.seen
  }

  ghost function Stale(l: Layout, s: State, b: nat): set<nat> {
    set t | 0 <= t < |s.threads| && IsStale(l, s, b, t)
  }

  ghost function UpTo(n: nat): set<nat> {
    if n == 0 then {} else UpTo(n - 1) + {n - 1}
  }

  lemma UpToHas(n: nat)
    ensures (forall x :: x in UpTo(n) <==> 0 <= x < n) && |UpTo(n)| == n
  {
  }

  lemma SetSize(a: set<nat>, b: set<nat>)
    requires a <= b
    ensures |a| <= |b|
  {
    assert b == a + (b - a);
  }

  lemma Fewer(a: set<nat>, n: nat, t: nat)
    requires t < n && t !in a && forall x :: x in a ==> x < n
    ensures |a| <= n - 1
  {
    UpToHas(n);
    SetSize(a, UpTo(n) - {t});
  }

  /** Every lost race is paid for by a write another thread published since the load. */
  ghost predicate Bounded(l: Layout, s: State, b: nat) {
    Lost(l, s.log, b) + |Stale(l, s, b)| <= (|s.threads| - 1) * Won(l, s.log, b)
  }

  lemma WinBounded(l: Layout, s: State, t: nat, b: nat)
    requires Bounded(l, s, b) && t < |s.threads| && s.threads[t].Prepared? && Ready(l, s, s.threads[t].cmd)
    requires s.threads[t].cmd.Writes() && s.tops[l.home(s.threads[t].cmd.key)] == s.threads[t].seen
    ensures Bounded(l, Next(l, s, Swap(t)), b)
  {
    hide Lost, Won;
    var me, s', n := s.threads[t], Next(l, s, Swap(t)), |s.threads|;
    CountGrows(l, s.log, TookEffect(t, me.cmd, Written), b);
    if l.home(me.cmd.key) == b {
      Fewer(Stale(l, s', b), n, t);
      assert (n - 1) * (Won(l, s.log, b) + 1) == (n - 1) * Won(l, s.log, b) + (n - 1);
    } else {
      StaleElsewhere(l, s, s', t, b);
    }
  }

  /** A thread that moves on another bucket, or off this one, stales nobody here. */
  lemma StaleElsewhere(l: Layout, s: State, s': State, t: nat, b: nat)
    requires |s'.threads| == |s.threads| && t < |s.threads| && |s'.tops| == |s.tops|
    requires forall u :: 0 <= u < |s.threads| && u != t ==> s'.threads[u] == s.threads[u]
    requires b < |s.tops| ==> s'.tops[b] == s.tops[b]
    requires !IsStale(l, s', b, t)
    ensures Stale(l, s', b) == Stale(l, s, b) - {t}
  {
    forall u: nat ensures u in Stale(l, s', b) <==> u in Stale(l, s, b) - {t} {
      if u < |s.threads| && u != t {
        assert IsStale(l, s', b, u) <==> IsStale(l, s, b, u);
      }
    }
  }

  lemma LoseBounded(l: Layout, s: State, t: nat, b: nat)
    requires Bounded(l, s, b) && t < |s.threads| && s.threads[t].Prepared? && Ready(l, s, s.threads[t].cmd)
    requires s.tops[l.home(s.threads[t].cmd.key)] != s.threads[t].seen
    ensures Bounded(l, Next(l, s, Swap(t)), b)
  {
    hide Lost, Won;
    var me, s' := s.threads[t], Next(l, s, Swap(t));
    CountGrows(l, s.log, LostRace(t, me.cmd), b);
    StaleElsewhere(l, s, s', t, b);
    assert l.home(me.cmd.key) == b ==> t in Stale(l, s, b);
  }

  lemma SwapBounded(l: Layout, s: State, t: nat, b: nat)
    requires Inv(l, s) && Bounded(l, s, b) && t < |s.threads| && s.threads[t].Prepared?
    ensures Bounded(l, Next(l, s, Swap(t)), b)
  {
    hide Sequential, Bracketed, Agrees, Bounded, Next;
    assert ThreadOk(l, s, t);
    if s.tops[l.home(s.threads[t].cmd.key)] == s.threads[t].seen {
      WinBounded(l, s, t, b);
    } else {
      LoseBounded(l, s, t, b);
    }
  }

  /** Copying changes neither what was seen nor who is stale. */
  lemma CopyBounded(l: Layout, s: State, t: nat, b: nat)
    requires Bounded(l, s, b) && t < |s.threads|
    ensures Bounded(l, Next(l, s, Copy(t)), b)
  {
    hide Lost, Won;
    var s' := Next(l, s, Copy(t));
    forall u: nat ensures u in Stale(l, s', b) <==> u in Stale(l, s, b) {
      if u < |s.threads| {
        assert IsStale(l, s', b, u) <==> IsStale(l, s, b, u);
      }
    }
    assert Stale(l, s', b) == Stale(l, s, b);
  }

  /** A step that moves no bucket pointer and loses no race leaves the bill unchanged or lower. */
  lemma QuietBounded(l: Layout, s: State, step: Step, b: nat)
    requires Bounded(l, s, b) && (step.Call? || step.Load? || step.Look? || step.Return?)
    ensures Bounded(l, Next(l, s, step), b)
  {
    hide Lost, Won, Stale;
    var s' := Next(l, s, step);
    if step.t < |s.threads| && s' != s {
      StaleElsewhere(l, s, s', step.t, b);
      SetSize(Stale(l, s', b), Stale(l, s, b));
      QuietCounts(l, s, step, b);
    }
  }

  lemma QuietCounts(l: Layout, s: State, step: Step, b: nat)
    requires step.Call? || step.Load? || step.Look? || step.Return?
    ensures Lost(l, Next(l, s, step).log, b) == Lost(l, s.log, b)
    ensures Won(l, Next(l, s, step).log, b) == Won(l, s.log, b)
  {
    hide Lost, Won;
    var log' := Next(l, s, step).log;
    if log' != s.log {
      CountGrows(l, s.log, log'[|s.log|], b);
      assert log' == s.log + [log'[|s.log|]];
    }
  }

  lemma {:induction false} RetriesStay(l: Layout, s: State, steps: seq<Step>, b: nat)
    requires Inv(l, s) && Bounded(l, s, b)
    ensures Bounded(l, Run(l, s, steps), b)
    decreases steps
  {
    hide Inv, Bounded;
    if steps != [] {
      var step := steps[0];
      NextKeeps(l, s, step);
      if step.Swap? && step.t < |s.threads| && s.threads[step.t].Prepared? {
        SwapBounded(l, s, step.t, b);
      } else if step.Copy? && step.t < |s.threads| {
        CopyBounded(l, s, step.t, b);
      } else if step.Call? || step.Load? || step.Look? || step.Return? {
        QuietBounded(l, s, step, b);
      }
      RetriesStay(l, Next(l, s, step), steps[1..], b);
    }
  }

  /** In every schedule of T threads, at most T - 1 compare-and-swaps on a bucket fail for each one that succeeds. */
  lemma RetryBound(l: Layout, threads: nat, steps: seq<Step>, b: nat)
    requires Fits(l) && threads > 0
    ensures var s := Run(l, Start(l, threads), steps);
            Lost(l, s.log, b) <= (threads - 1) * Won(l, s.log, b)
  {
    var s := Start(l, threads);
    StartKeeps(l, threads);
    assert Stale(l, s, b) == {};
    Linearizable(l, s, steps);
    RetriesStay(l, s, steps, b);
  }

  // ----- choosing the bucket

  /** Bitwise and of two non-negative numbers. */
  function And(x: nat, y: nat): nat {
    if x == 0 || y == 0 then 0 else (x % 2) * (y % 2) + 2 * And(x / 2, y / 2)
  }

  lemma {:induction false} AndAtMost(x: nat, y: nat)
    ensures And(x, y) <= y
  {
    if x != 0 && y != 0 {
      AndAtMost(x / 2, y / 2);
      assert (x % 2) * (y % 2) <= y % 2;
    }
  }

  /** One binary digit of a number. */
  function Bit(n: nat, i: nat): nat {
    if i == 0 then n % 2 else Bit(n / 2, i - 1)
  }

  /** A digit of the masked number is one if and only if it is one in both. */
  lemma {:induction false} AndBits(x: nat, y: nat, i: nat)
    ensures Bit(And(x, y), i) == 1 <==> Bit(x, i) == 1 && Bit(y, i) == 1
    decreases i
  {
    if x == 0 || y == 0 {
      BitOfZero(i);
    } else {
      var a, b := (x % 2) * (y % 2), And(x / 2, y / 2);
      assert 0 <= a <= 1 && (a == 1 <==> x % 2 == 1 && y % 2 == 1);
      assert (a + 2 * b) % 2 == a && (a + 2 * b) / 2 == b;
      if i > 0 {
        AndBits(x / 2, y / 2, i - 1);
      }
    }
  }

  lemma {:induction false} BitOfZero(i: nat)
    ensures Bit(0, i) == 0
  {
    if i > 0 {
      BitOfZero(i - 1);
    }
  }

  /** The layout of a store with `n` buckets: the hash, left open, masked with the bucket count less one. */
  function StoreLayout(hash: Key -> nat, n: nat): Layout
    requires n >= 1
  {
    Layout(n, (k: Key) => And(hash(k), n - 1))
  }

  /** The masked hash is a valid bucket for every bucket count, a power of two or not. */
  lemma StoreFits(hash: Key -> nat, n: nat)
    requires n >= 1
    ensures Fits(StoreLayout(hash, n))
  {
    forall k: Key ensures StoreLayout(hash, n).home(k) < n {
      AndAtMost(hash(k), n - 1);
    }
  }
}
