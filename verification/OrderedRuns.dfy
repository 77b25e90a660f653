/** Whole runs against the ordered stores: every reply is the one a plain map gives. */
module OrderedRuns {
  import opened Bytes
  import opened MapSpec
  import BPlusTree
  import BPlusShape
  import BPlusScan
  import SkipList
  import ArtTree
  import ArtPaths
  import ArtWalk
  import ArtSteps

  lemma EmptyRun()
    ensures RunCorrect(map[], [], []) && AfterAll(map[], []) == map[]
  {
  }

  method ApplyBPTree(s: BPlusTree.BPTreeStore, op: Op) returns (r: Reply)
    requires s.Valid()
    modifies s, BPlusShape.Nodes(s.shape)
    ensures s.Valid() && s.contents == After(old(s.contents), op) && Correct(old(s.contents), op, r)
    ensures forall n :: n in BPlusShape.Nodes(s.shape) && n !in old(BPlusShape.Nodes(s.shape)) ==> fresh(n)
    ensures !op.Del? ==> s.dense == old(s.dense)
  {
    hide Ascending, Less, AtMost, BPlusTree.BPTreeStore.Valid;
    r := Done;
    match op {
      case Set(k, v) => s.Set(k, v);
      case Del(k) => s.Del(k);
      case Get(k) => var l := s.Get(k); r := Value(l);
      case PrefixKeys(p) => var ks := s.PrefixKeys(p); r := Keys(ks);
      case RangeKeys(a, b) => var ks := s.RangeKeys(a, b); r := Keys(ks);
    }
  }

  method ApplySkipList(s: SkipList.SkipListStore, op: Op) returns (r: Reply)
    requires s.Valid()
    modifies s, SkipList.NodeSet(s.rows)
    ensures s.Valid() && s.contents == After(old(s.contents), op) && Correct(old(s.contents), op, r)
    ensures forall n :: n in SkipList.NodeSet(s.rows) && n !in old(SkipList.NodeSet(s.rows)) ==> fresh(n)
  {
    hide Ascending, Less, AtMost, SkipList.SkipListStore.Valid;
    r := Done;
    match op {
      case Set(k, v) => s.Set(k, v);
      case Del(k) => s.Del(k);
      case Get(k) => var l := s.Get(k); r := Value(l);
      case PrefixKeys(p) => var ks := s.PrefixKeys(p); r := Keys(ks);
      case RangeKeys(a, b) => var ks := s.RangeKeys(a, b); r := Keys(ks);
    }
  }

  method RunBPTree(ops: seq<Op>) returns (rs: seq<Reply>)
    ensures RunCorrect(map[], ops, rs)
  {
    hide Ascending, Less, AtMost, BPlusTree.BPTreeStore.Valid, BPlusShape.Nodes, RunCorrect, Correct;
    var s := new BPlusTree.BPTreeStore();
    rs := [];
    EmptyRun();
    for i := 0 to |ops|
      invariant s.Valid() && fresh(s) && forall n :: n in BPlusShape.Nodes(s.shape) ==> fresh(n)
      invariant RunCorrect(map[], ops[..i], rs) && s.contents == AfterAll(map[], ops[..i])
    {
      var r := ApplyBPTree(s, ops[i]);
      assert ops[..i + 1] == ops[..i] + [ops[i]];
      RunExtends(map[], ops[..i], rs, ops[i], r);
      rs := rs + [r];
    }
    assert ops[..|ops|] == ops;
  }

  /** On a run without Del the tree stays low: h >= 1 levels of inner nodes hold at least 2 * 16^h keys. */
  method GrowBPTree(ops: seq<Op>) returns (s: BPlusTree.BPTreeStore)
    requires forall i :: 0 <= i < |ops| ==> !ops[i].Del?
    ensures s.Valid() && s.contents == AfterAll(map[], ops)
    ensures s.height >= 1 ==> |AfterAll(map[], ops)| >= 2 * BPlusScan.Pow16(s.height)
  {
    hide BPlusTree.BPTreeStore.Valid, BPlusShape.Nodes, RunCorrect, Correct;
    s := new BPlusTree.BPTreeStore();
    ghost var rs := [];
    EmptyRun();
    for i := 0 to |ops|
      invariant s.Valid() && fresh(s) && s.dense && forall n :: n in BPlusShape.Nodes(s.shape) ==> fresh(n)
      invariant RunCorrect(map[], ops[..i], rs) && s.contents == AfterAll(map[], ops[..i])
    {
      var r := ApplyBPTree(s, ops[i]);
      assert ops[..i + 1] == ops[..i] + [ops[i]];
      RunExtends(map[], ops[..i], rs, ops[i], r);
      rs := rs + [r];
    }
    assert ops[..|ops|] == ops;
    if s.height >= 1 {
      s.HeightBounded();
    }
  }

  method RunSkipList(ops: seq<Op>) returns (rs: seq<Reply>)
    ensures RunCorrect(map[], ops, rs)
  {
    hide Ascending, Less, AtMost, SkipList.SkipListStore.Valid, SkipList.NodeSet, RunCorrect, Correct;
    var s := new SkipList.SkipListStore();
    rs := [];
    EmptyRun();
    for i := 0 to |ops|
      invariant s.Valid() && fresh(s) && forall n :: n in SkipList.NodeSet(s.rows) ==> fresh(n)
      invariant RunCorrect(map[], ops[..i], rs) && s.contents == AfterAll(map[], ops[..i])
    {
      var r := ApplySkipList(s, ops[i]);
      assert ops[..i + 1] == ops[..i] + [ops[i]];
      RunExtends(map[], ops[..i], rs, ops[i], r);
      rs := rs + [r];
    }
    assert ops[..|ops|] == ops;
  }

  /** The two stores answer every run alike, whatever heights the skip list draws. */
  method RunBoth(ops: seq<Op>) returns (rs: seq<Reply>, rs': seq<Reply>)
    ensures rs == rs' && RunCorrect(map[], ops, rs)
  {
    rs := RunBPTree(ops);
    rs' := RunSkipList(ops);
    RunDetermined(map[], ops, rs, rs');
  }

  // ----- the radix tree

  method ApplyArt(s: ArtTree.ARTStore, op: Op) returns (r: Reply, fate: ArtWalk.Passage)
    requires s.Valid()
    modifies s, s.at.Values
    ensures if op.Set?
            then fate == old(ArtWalk.Fate(s.Now(), op.key)) &&
                 s.Done(old(s.Now()), old(s.contents), fate, op.key, op.value)
            else fate == ArtWalk.Stored
    ensures Goes(fate) ==> s.Valid() && s.contents == After(old(s.contents), op)
    ensures Correct(old(s.contents), op, r) <==> !(op.PrefixKeys? && old(ArtWalk.Misled(s.Now(), op.prefix)))
    ensures AlmostCorrect(old(s.contents), op, r)
    ensures fate == ArtWalk.Stored && old(ArtWalk.Tame(s.Now())) ==> ArtWalk.Tame(s.Now())
    ensures forall n :: n in s.at.Values && n !in old(s.at.Values) ==> fresh(n)
    ensures forall ever :: old(ArtWalk.Known(s.Now(), ever)) && (op.Set? ==> op.key in ever) && Goes(fate) ==>
              ArtWalk.Known(s.Now(), ever)
  {
    hide Ascending, Less, AtMost, ArtPaths.Good, ArtSteps.Tidy, ArtSteps.Twins, ArtWalk.Known, ArtWalk.Fate,
         ArtSteps.Shared, ArtWalk.Misled, ArtWalk.Tame, ArtSteps.OneLost;
    r, fate := Done, ArtWalk.Stored;
    ArtSteps.TidyTwins(s.at, s.twin);
    match op {
      case Set(k, v) => fate := s.Set(k, v);
      case Del(k) => s.Del(k);
      case Get(k) => var l := s.Get(k); r := Value(l);
      case PrefixKeys(p) => var ks := s.PrefixKeys(p); r := Keys(ks);
      case RangeKeys(a, b) => var ks := s.RangeKeys(a, b); r := Keys(ks);
    }
  }

  /** The store still has every key. */
  predicate Goes(fate: ArtWalk.Passage) {
    fate == ArtWalk.Stored || fate == ArtWalk.Strayed
  }

  /** Right, except that a prefix search may list other stored keys too. */
  ghost predicate AlmostCorrect(m: map<Key, Value>, op: Op, r: Reply) {
    if op.PrefixKeys? then
      && r.Keys? && Ascending(r.keys) && (forall k :: k in r.keys ==> k in m)
      && forall k :: k in m && op.prefix <= k ==> k in r.keys
    else Correct(m, op, r)
  }

  ghost predicate RunAlmostCorrect(m: map<Key, Value>, ops: seq<Op>, rs: seq<Reply>) {
    |rs| == |ops| && forall i :: 0 <= i < |rs| ==> AlmostCorrect(AfterAll(m, ops[..i]), ops[i], rs[i])
  }

  lemma AlmostExtends(m: map<Key, Value>, ops: seq<Op>, rs: seq<Reply>, op: Op, r: Reply)
    requires RunAlmostCorrect(m, ops, rs) && AlmostCorrect(AfterAll(m, ops), op, r)
    ensures RunAlmostCorrect(m, ops + [op], rs + [r])
  {
    hide AlmostCorrect;
    var os := ops + [op];
    forall i | 0 <= i < |os| ensures AlmostCorrect(AfterAll(m, os[..i]), os[i], (rs + [r])[i]) {
      assert os[..i] == ops[..i];
      assert ops[..|ops|] == ops;
    }
  }

  lemma {:induction false} AfterExtends(m: map<Key, Value>, ops: seq<Op>, op: Op)
    ensures AfterAll(m, ops + [op]) == After(AfterAll(m, ops), op)
    decreases ops
  {
    if ops == [] {
      assert ops + [op] == [op];
    } else {
      AfterExtends(After(m, ops[0]), ops[1..], op);
      assert (ops + [op])[1..] == ops[1..] + [op];
    }
  }

  /** The keys a run stores. */
  ghost function SetKeys(ops: seq<Op>): set<Key> {
    set i | 0 <= i < |ops| && ops[i].Set? :: ops[i].key
  }

  /** One operation of a run that stores no other keys than these. */
  method StepArt(s: ArtTree.ARTStore, op: Op, ghost ever: set<Key>) returns (r: Reply, fate: ArtWalk.Passage)
    requires s.Valid() && ArtWalk.Known(s.Now(), ever) && (op.Set? ==> op.key in ever)
    modifies s, s.at.Values
    ensures fate != ArtWalk.Passed && (!op.Set? ==> fate == ArtWalk.Stored)
    ensures ArtWalk.Separable(ever) ==> fate == ArtWalk.Stored || fate == ArtWalk.Stuck
    ensures ArtWalk.Roomy(ever) ==> fate != ArtWalk.Stuck
    ensures Goes(fate) ==> s.Valid() && ArtWalk.Known(s.Now(), ever) && s.contents == After(old(s.contents), op)
    ensures AlmostCorrect(old(s.contents), op, r) && (old(ArtWalk.Tame(s.Now())) ==> Correct(old(s.contents), op, r))
    ensures fate == ArtWalk.Stored && old(ArtWalk.Tame(s.Now())) ==> ArtWalk.Tame(s.Now())
    ensures forall n :: n in s.at.Values && n !in old(s.at.Values) ==> fresh(n)
  {
    hide ArtTree.ARTStore.Done, ArtPaths.Good, ArtSteps.Tidy, ArtWalk.Known, ArtWalk.Misled, ArtWalk.Separable,
         ArtWalk.Roomy, ArtWalk.Tame, ArtWalk.Blocked, ArtWalk.Panics, ArtWalk.Loses, ArtWalk.Strays, Correct,
         AlmostCorrect;
    if op.Set? {
      ArtWalk.FateOfKnown(s.Now(), s.contents, ever, op.key);
    }
    if op.PrefixKeys? && ArtWalk.Tame(s.Now()) {
      ArtWalk.TameHasNone(s.Now(), op.prefix);
    }
    r, fate := ApplyArt(s, op);
  }

  /** Up to the first Set that gets stuck, panics or loses a key, every reply is the map's, except that once a Set has
      strayed, prefix searches may list too many keys. None of this happens, but for a stuck Set, if the keys of the run
      can be told apart, and none gets stuck if no key is shorter than what two of them share. */
  method RunArt(ops: seq<Op>) returns (rs: seq<Reply>, fate: ArtWalk.Passage, strayed: bool)
    ensures |rs| <= |ops| && RunAlmostCorrect(map[], ops[..|rs|], rs) && fate != ArtWalk.Passed
    ensures if Goes(fate) then |rs| == |ops| else |rs| < |ops| && ops[|rs|].Set?
    ensures !strayed ==> RunCorrect(map[], ops[..|rs|], rs)
    ensures ArtWalk.Separable(SetKeys(ops)) ==> !strayed && (fate == ArtWalk.Stored || fate == ArtWalk.Stuck)
    ensures ArtWalk.Roomy(SetKeys(ops)) ==> fate != ArtWalk.Stuck
  {
    hide ArtPaths.Good, ArtSteps.Tidy, ArtSteps.AllProper, ArtSteps.Looks, ArtWalk.Known, ArtWalk.Separable,
         ArtWalk.Roomy, ArtWalk.Tame, RunCorrect, Correct, AlmostCorrect, RunAlmostCorrect, SetKeys;
    var s := new ArtTree.ARTStore();
    ghost var ever := SetKeys(ops);
    rs, strayed := [], false;
    EmptyRun();
    NothingWrong();
    for i := 0 to |ops|
      invariant s.Valid() && fresh(s) && forall n :: n in s.at.Values ==> fresh(n)
      invariant |rs| == i && s.contents == AfterAll(map[], ops[..i]) && ArtWalk.Known(s.Now(), ever)
      invariant RunAlmostCorrect(map[], ops[..i], rs)
      invariant !strayed ==> ArtWalk.Tame(s.Now()) && RunCorrect(map[], ops[..i], rs)
      invariant ArtWalk.Separable(ever) ==> !strayed
    {
      KeyOfRun(ops, i);
      var r;
      r, fate := StepArt(s, ops[i], ever);
      if !Goes(fate) {
        return;
      }
      assert ops[..i + 1] == ops[..i] + [ops[i]];
      AfterExtends(map[], ops[..i], ops[i]);
      AlmostExtends(map[], ops[..i], rs, ops[i], r);
      if !strayed {
        RunExtends(map[], ops[..i], rs, ops[i], r);
      }
      rs, strayed := rs + [r], strayed || fate == ArtWalk.Strayed;
    }
    fate := ArtWalk.Stored;
    assert ops[..|ops|] == ops;
  }

  lemma NothingWrong()
    ensures RunAlmostCorrect(map[], [], [])
  {
  }

  lemma KeyOfRun(ops: seq<Op>, i: nat)
    requires i < |ops|
    ensures ops[i].Set? ==> ops[i].key in SetKeys(ops)
  {
  }

  /** For keys that can be told apart and are no shorter than what two of them share, as keys of one length, the three
      stores answer every run alike. */
  method RunAll(ops: seq<Op>) returns (rs: seq<Reply>, rs': seq<Reply>, rs'': seq<Reply>)
    requires ArtWalk.Separable(SetKeys(ops)) && ArtWalk.Roomy(SetKeys(ops))
    ensures rs == rs' == rs'' && RunCorrect(map[], ops, rs)
  {
    hide RunCorrect, RunAlmostCorrect, ArtWalk.Separable, ArtWalk.Roomy, SetKeys;
    var fate, strayed;
    rs, rs' := RunBoth(ops);
    rs'', fate, strayed := RunArt(ops);
    assert ops[..|ops|] == ops;
    RunDetermined(map[], ops, rs, rs'');
  }
}
