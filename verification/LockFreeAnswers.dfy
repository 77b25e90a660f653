/** What the calls of the lock-free store answer, read off the log of events alone. */
module LockFreeAnswers {
  import opened Bytes
  import opened Lookups
  import opened Tables
  import opened LastWrites
  import opened LockFree

  // ----- the last write to a key or a field

  /** The last Put or Drop of the key that took effect is this Put. */
  ghost predicate PutLast(log: seq<Event>, k: Key, v: Value) {
    exists i :: 0 <= i < |log| && log[i].TookEffect? && log[i].cmd == Put(k, v) &&
                forall j :: i < j < |log| && log[j].TookEffect? ==>
                              log[j].cmd != Drop(k) && !(log[j].cmd.Put? && log[j].cmd.key == k)
  }

  /** The last HPut of the field or Drop of its hash that took effect is this HPut. */
  ghost predicate HPutLast(log: seq<Event>, h: Key, f: Key, v: Value) {
    exists i :: 0 <= i < |log| && log[i].TookEffect? && log[i].cmd == HPut(h, f, v) &&
                forall j :: i < j < |log| && log[j].TookEffect? ==>
                              log[j].cmd != Drop(h) &&
                              !(log[j].cmd.HPut? && log[j].cmd.key == h && log[j].cmd.field == f)
  }

  /** Some HPut to the hash took effect since it was last dropped. */
  ghost predicate HashPut(log: seq<Event>, h: Key) {
    exists i :: 0 <= i < |log| && log[i].TookEffect? && log[i].cmd.HPut? && log[i].cmd.key == h &&
                forall j :: i < j < |log| && log[j].TookEffect? ==> log[j].cmd != Drop(h)
  }

  /** A command that takes effect after these events answers from the last writes among them. */
  ghost predicate Answered(log: seq<Event>, c: Cmd, a: Answer) {
    match c
    case Read(k) => a.One? && forall v :: a.lookup == Found(v) <==> PutLast(log, k, v)
    case HRead(h, f) => a.One? && forall v :: a.lookup == Found(v) <==> HPutLast(log, h, f, v)
    case HReadAll(h) =>
      && a.Whole? && (a.present <==> HashPut(log, h))
      && forall f, v :: Find(a.fields, f) == Found(v) <==> HPutLast(log, h, f, v)
    case _ => a == Written
  }

  // ----- the history of a log holds the last writes in it

  function EditOf(e: Event): Edit {
    if !e.TookEffect? then Pass
    else match e.cmd
      case Put(k, v) => PutString(k, v)
      case Drop(k) => Erase(k)
      case HPut(h, f, v) => PutField(h, f, v)
      case _ => Pass
  }

  function Edits(log: seq<Event>): (es: seq<Edit>)
    ensures |es| == |log| && forall i :: 0 <= i < |log| ==> es[i] == EditOf(log[i])
  {
    seq(|log|, i requires 0 <= i < |log| => EditOf(log[i]))
  }

  lemma {:induction false} HistoryMeans(log: seq<Event>)
    ensures Means(History(log), Edits(log))
  {
    hide Means;
    if log == [] {
      NothingMeans();
    } else {
      var init, e := log[..|log| - 1], log[|log| - 1];
      HistoryMeans(init);
      MeansMore(History(init), Edits(init), EditOf(e));
      assert Edits(log) == Edits(init) + [EditOf(e)];
    }
  }

  lemma PutLastIs(log: seq<Event>, k: Key, v: Value)
    ensures PutLast(log, k, v) <==> StringLast(Edits(log), k, v)
  {
    var es := Edits(log);
    if PutLast(log, k, v) {
      var i :| 0 <= i < |log| && log[i].TookEffect? && log[i].cmd == Put(k, v) &&
               forall j :: i < j < |log| && log[j].TookEffect? ==>
                             log[j].cmd != Drop(k) && !(log[j].cmd.Put? && log[j].cmd.key == k);
      assert es[i] == PutString(k, v);
    }
    if StringLast(es, k, v) {
      var i :| 0 <= i < |es| && es[i] == PutString(k, v) &&
               forall j :: i < j < |es| ==> es[j] != Erase(k) && !(es[j].PutString? && es[j].key == k);
      assert log[i].TookEffect? && log[i].cmd == Put(k, v);
      forall j | i < j < |log| && log[j].TookEffect?
        ensures log[j].cmd != Drop(k) && !(log[j].cmd.Put? && log[j].cmd.key == k)
      {
        assert es[j] == EditOf(log[j]);
      }
    }
  }

  lemma HPutLastIs(log: seq<Event>, h: Key, f: Key, v: Value)
    ensures HPutLast(log, h, f, v) <==> FieldLast(Edits(log), h, f, v)
  {
    var es := Edits(log);
    if HPutLast(log, h, f, v) {
      var i :| 0 <= i < |log| && log[i].TookEffect? && log[i].cmd == HPut(h, f, v) &&
               forall j :: i < j < |log| && log[j].TookEffect? ==>
                             log[j].cmd != Drop(h) &&
                             !(log[j].cmd.HPut? && log[j].cmd.key == h && log[j].cmd.field == f);
      assert es[i] == PutField(h, f, v);
    }
    if FieldLast(es, h, f, v) {
      var i :| 0 <= i < |es| && es[i] == PutField(h, f, v) && forall j :: i < j < |es| ==>
                 es[j] != Erase(h) && !(es[j].PutField? && es[j].key == h && es[j].field == f);
      assert log[i].TookEffect? && log[i].cmd == HPut(h, f, v);
      forall j | i < j < |log| && log[j].TookEffect?
        ensures log[j].cmd != Drop(h) && !(log[j].cmd.HPut? && log[j].cmd.key == h && log[j].cmd.field == f)
      {
        assert es[j] == EditOf(log[j]);
      }
    }
  }

  lemma HashPutIs(log: seq<Event>, h: Key)
    ensures HashPut(log, h) <==> HashLast(Edits(log), h)
  {
    var es := Edits(log);
    if HashPut(log, h) {
      var i :| 0 <= i < |log| && log[i].TookEffect? && log[i].cmd.HPut? && log[i].cmd.key == h &&
               forall j :: i < j < |log| && log[j].TookEffect? ==> log[j].cmd != Drop(h);
      assert es[i].PutField? && es[i].key == h;
    }
    if HashLast(es, h) {
      var i :| 0 <= i < |es| && es[i].PutField? && es[i].key == h && forall j :: i < j < |es| ==> es[j] != Erase(h);
      assert log[i].TookEffect? && log[i].cmd.HPut? && log[i].cmd.key == h;
      forall j | i < j < |log| && log[j].TookEffect? ensures log[j].cmd != Drop(h) {
        assert es[j] == EditOf(log[j]);
      }
    }
  }

  /** A map store answers from the last writes. */
  lemma AnswersFromLast(log: seq<Event>, c: Cmd)
    ensures Answered(log, c, AnswerOf(History(log), c))
  {
    hide History, PutLast, HPutLast, HashPut, StringLast, FieldLast, HashLast;
    HistoryMeans(log);
    match c
    case Read(k) =>
      forall v ensures Find(History(log).strings, k) == Found(v) <==> PutLast(log, k, v) {
        PutLastIs(log, k, v);
      }
    case HRead(h, f) =>
      forall v ensures Find(FieldsOf(History(log), h), f) == Found(v) <==> HPutLast(log, h, f, v) {
        HPutLastIs(log, h, f, v);
      }
    case HReadAll(h) =>
      HashPutIs(log, h);
      forall f, v ensures Find(FieldsOf(History(log), h), f) == Found(v) <==> HPutLast(log, h, f, v) {
        HPutLastIs(log, h, f, v);
      }
    case _ =>
  }

  // ----- every call of every run

  /** The events of one call: it is made, takes effect once with its answer, and returns; in between its thread only
      loses races. */
  ghost predicate CallOf(log: seq<Event>, i: nat, j: nat, r: nat) {
    && i < j < r < |log| && log[r].Returned?
    && log[i] == Called(log[r].t, log[r].cmd) && log[j] == TookEffect(log[r].t, log[r].cmd, log[r].answer)
    && forall x :: i < x < r && x != j && log[x].t == log[r].t ==> log[x].LostRace? && x < j
  }

  lemma {:induction false} FinishedAt(log: seq<Event>, t: nat) returns (j: nat)
    requires Place(log, t).Finished?
    ensures j < |log| && log[j] == TookEffect(t, Place(log, t).cmd, Place(log, t).answer)
    ensures forall x :: j < x < |log| ==> log[x].t != t
  {
    j := |log| - 1;
    if log[j].t != t {
      j := FinishedAt(log[..|log| - 1], t);
    }
  }

  lemma BracketedAt(log: seq<Event>, i: nat)
    requires Bracketed(log) && i < |log|
    ensures InOrder(Place(log[..i], log[i].t), log[i]) && Bracketed(log[..i])
  {
    hide Place;
    assert forall x :: 0 <= x < i ==> log[..i][..x] == log[..x];
  }

  lemma {:induction false} CalledAt(log: seq<Event>, t: nat) returns (i: nat)
    requires Bracketed(log) && Place(log, t).Trying?
    ensures i < |log| && log[i] == Called(t, Place(log, t).cmd)
    ensures forall x :: i < x < |log| && log[x].t == t ==> log[x].LostRace?
  {
    hide Bracketed;
    i := |log| - 1;
    BracketedAt(log, i);
    if log[i].t != t || log[i].LostRace? {
      i := CalledAt(log[..i], t);
    }
  }

  lemma CallFound(log: seq<Event>, r: nat) returns (i: nat, j: nat)
    requires Bracketed(log) && r < |log| && log[r].Returned?
    ensures CallOf(log, i, j, r)
  {
    hide Place, Bracketed;
    var t := log[r].t;
    BracketedAt(log, r);
    j := FinishedAt(log[..r], t);
    assert log[..r][j] == log[j];
    BracketedAt(log, j);
    i := CalledAt(log[..j], t);
    assert log[..j][i] == log[i];
    assert forall x :: j < x < r ==> log[x] == log[..r][x];
    assert forall x :: i < x < j ==> log[x] == log[..j][x];
  }

  /** In every schedule, every call that returns took effect once, between its call and its return, and answered from
      the last writes that had taken effect by then. */
  lemma EveryCall(l: Layout, threads: nat, steps: seq<Step>, r: nat) returns (i: nat, j: nat)
    requires Fits(l) && r < |Run(l, Start(l, threads), steps).log|
    requires Run(l, Start(l, threads), steps).log[r].Returned?
    ensures var log := Run(l, Start(l, threads), steps).log;
            CallOf(log, i, j, r) && Answered(log[..j], log[r].cmd, log[r].answer)
  {
    hide Answered, Run, Start;
    var log := Run(l, Start(l, threads), steps).log;
    EveryRun(l, threads, steps);
    i, j := CallFound(log, r);
    AnswersFromLast(log[..j], log[j].cmd);
  }

  /** The same for every command that took effect, returned or not. */
  lemma EveryAnswer(l: Layout, threads: nat, steps: seq<Step>, j: nat)
    requires Fits(l) && j < |Run(l, Start(l, threads), steps).log|
    requires Run(l, Start(l, threads), steps).log[j].TookEffect?
    ensures var log := Run(l, Start(l, threads), steps).log; Answered(log[..j], log[j].cmd, log[j].answer)
  {
    hide Answered, Run, Start;
    var log := Run(l, Start(l, threads), steps).log;
    EveryRun(l, threads, steps);
    AnswersFromLast(log[..j], log[j].cmd);
  }

  // ----- progress

  lemma RunOne(l: Layout, s: State, step: Step, rest: seq<Step>)
    ensures Run(l, s, [step] + rest) == Run(l, Next(l, s, step), rest)
  {
    hide Next;
    assert ([step] + rest)[1..] == rest;
  }

  /** A write that no other thread interferes with takes effect and returns, in any reachable state. */
  lemma SoloWrite(l: Layout, s: State, t: nat, c: Cmd)
    requires Inv(l, s) && t < |s.threads| && s.threads[t].Idle? && c.Writes()
    ensures Run(l, s, [Call(t, c), Load(t), Copy(t), Swap(t), Return(t)]).log ==
            s.log + [Called(t, c), TookEffect(t, c, Written), Returned(t, c, Written)]
  {
    hide Effect, Sequential, Bracketed, Agrees, ThreadOk, Run;
    var s1 := Next(l, s, Call(t, c));
    var s2 := Next(l, s1, Load(t));
    var s3 := Next(l, s2, Copy(t));
    var s4 := Next(l, s3, Swap(t));
    var s5 := Next(l, s4, Return(t));
    assert s3.threads[t].Prepared? && s3.tops == s.tops && s3.cells == s.cells;
    assert s5.log == s.log + [Called(t, c)] + [TookEffect(t, c, Written)] + [Returned(t, c, Written)];
    FiveSteps(l, s, Call(t, c), Load(t), Copy(t), Swap(t), Return(t));
  }

  lemma FiveSteps(l: Layout, s: State, a: Step, b: Step, c: Step, d: Step, e: Step)
    ensures Run(l, s, [a, b, c, d, e]) == Next(l, Next(l, Next(l, Next(l, Next(l, s, a), b), c), d), e)
  {
    hide Next;
    var x := Next(l, Next(l, Next(l, Next(l, s, a), b), c), d);
    RunOne(l, s, a, [b, c, d, e]);
    RunOne(l, Next(l, s, a), b, [c, d, e]);
    RunOne(l, Next(l, Next(l, s, a), b), c, [d, e]);
    RunOne(l, Next(l, Next(l, Next(l, s, a), b), c), d, [e]);
    RunOne(l, x, e, []);
    RunNothing(l, Next(l, x, e));
    assert [a] + [b, c, d, e] == [a, b, c, d, e] && [b] + [c, d, e] == [b, c, d, e];
    assert [c] + [d, e] == [c, d, e] && [d] + [e] == [d, e] && [e] + [] == [e];
  }

  /** A read never waits: once called it takes effect and returns by its own steps. */
  lemma SoloRead(l: Layout, s: State, t: nat, c: Cmd)
    requires Inv(l, s) && t < |s.threads| && s.threads[t].Idle? && !c.Writes()
    ensures var log := Run(l, s, [Call(t, c), Look(t), Return(t)]).log;
            exists a :: log == s.log + [Called(t, c), TookEffect(t, c, a), Returned(t, c, a)]
  {
    hide Effect, AnswerOf, Sequential, Bracketed, Agrees, ThreadOk, Run;
    var s1 := Next(l, s, Call(t, c));
    var s2 := Next(l, s1, Look(t));
    var s3 := Next(l, s2, Return(t));
    var a := s2.threads[t].answer;
    assert s3.log == s.log + [Called(t, c)] + [TookEffect(t, c, a)] + [Returned(t, c, a)];
    assert s3.log == s.log + [Called(t, c), TookEffect(t, c, a), Returned(t, c, a)];
    RunOne(l, s, Call(t, c), [Look(t), Return(t)]);
    RunOne(l, s1, Look(t), [Return(t)]);
    RunOne(l, s2, Return(t), []);
    assert [Call(t, c)] + [Look(t), Return(t)] == [Call(t, c), Look(t), Return(t)];
    assert [Look(t)] + [Return(t)] == [Look(t), Return(t)] && [Return(t)] + [] == [Return(t)];
    RunNothing(l, s3);
  }

  lemma RunNothing(l: Layout, s: State)
    ensures Run(l, s, []) == s
  {
  }
}
