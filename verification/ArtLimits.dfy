/** Keys on which the radix tree store fails, through its own code. */
module ArtLimits {
  import opened Bytes
  import opened Lookups
  import opened ArtNode
  import opened ArtPaths
  import opened ArtWalk
  import opened ArtSteps
  import opened ArtTree

  // ----- all keys

  /** After a Set, a Get finds for every key what the map holds, if and only if the Set does not get stuck, does not
      panic and loses no key. In a tree that was never strayed in, all prefix searches are right if and only if it does
      not clash at all. */
  method SetShows(s: ARTStore, key: Key, value: Value) returns (fate: Passage)
    requires s.Valid()
    modifies s, s.at.Values
    ensures fate == old(Fate(s.Now(), key)) && s.Searchable()
    ensures fate == Stored || fate == Strayed <==>
              !(fate == Stuck || fate == Panicked) &&
              forall x :: Find(s.contents, x) == Find(old(s.contents)[key := value], x)
    ensures fate == Stored && old(Tame(s.Now())) ==> s.Guides(old(s.contents)[key := value])
    ensures fate == Strayed || fate == Lost ==> s.Misleads(old(s.contents)[key := value])
  {
    hide Good, Looks, AllProper, Blocked, Panics, Loses, Strays, Explained, Tame, Tidy, Twins, OneLost, Misled, Shared,
         Known, ListsAll, ARTStore.Misleads, ARTStore.Guides;
    ghost var m, tame := s.contents, Tame(s.Now());
    fate := s.Set(key, value);
    if fate == Lost {
      OneLostDiffers(m, s.contents, key, value);
      ghost var k :| k in m[key := value] && k !in s.contents;
      assert Find(s.contents, k) != Find(m[key := value], k);
    } else {
      TidyTwins(s.at, s.twin);
      if fate == Stored && tame {
        s.TameGuides();
      }
    }
  }

  // ----- what the tree must look like

  /** Two keys part ways at an inner node. */
  lemma {:induction false} Fork(t: Tree, m: map<Key, Value>, p: Path, k: Key, l: Key, deepest: nat) returns (q: Path)
    requires Good(t, m, {}) && k in m && l in m && k != l && (forall x :: x in t.look ==> |x| <= deepest)
    requires p in t.look && OnWay(p, k) && OnWay(p, l)
    ensures q in t.look && t.look[q].leaf.NoLeaf? && Leads(q, t.look[q], k) && Leads(q, t.look[q], l)
    ensures ByteAt(k, |q| + |t.look[q].prefix|) != ByteAt(l, |q| + |t.look[q].prefix|)
    decreases deepest - |p|
  {
    hide Good, OnWay;
    if t.look[p].leaf.Leaf? {
      LeafOnWay(t, m, {}, p, k);
      LeafOnWay(t, m, {}, p, l);
      assert false;
    }
    var v := t.look[p];
    Toward(t, m, {}, p, k);
    Toward(t, m, {}, p, l);
    var b := ByteAt(k, |p| + |v.prefix|);
    if b != ByteAt(l, |p| + |v.prefix|) {
      return p;
    }
    KidPlace(t, m, p, b);
    OnWayNext(p, v, b, k);
    OnWayNext(p, v, b, l);
    q := Fork(t, m, Next(p, v, b), k, l, deepest);
  }

  lemma ForkOf(t: Tree, m: map<Key, Value>, k: Key, l: Key) returns (q: Path)
    requires Good(t, m, {}) && k in m && l in m && k != l
    ensures q in t.look && t.look[q].leaf.NoLeaf? && Leads(q, t.look[q], k) && Leads(q, t.look[q], l)
    ensures ByteAt(k, |q| + |t.look[q].prefix|) != ByteAt(l, |q| + |t.look[q].prefix|)
  {
    hide OnWay, LeavesOk, Complete, InnersOk, Nested, Plain;
    var x := LeafOf(t, m, k);
    RootOnWay(k);
    RootOnWay(l);
    q := Fork(t, m, [], k, l, Deepest(t.look.Keys));
  }

  /** Where "a" and another key with the same first byte have parted, there is a node at "a\0". */
  lemma NulPlace(t: Tree, m: map<Key, Value>, k: Key, l: Key)
    requires Good(t, m, {}) && k in m && l in m && |k| > 0 && |l| > 1 && k[0] == l[0] == 97
    requires ByteAt(k, 1) == 0 && l[1] != 0
    ensures [97, 0] in t.look
  {
    hide Good;
    var q := ForkOf(t, m, k, l);
    var v := t.look[q];
    var w := q + v.prefix;
    assert |w| == 1 && w[0] == 97;
    assert w == [97];
    KidPlace(t, m, q, 0);
    assert Next(q, v, 0) == [97, 0];
  }

  /** Only one sequence is all that two keys share. */
  lemma SharedIs(u: seq<byte>, w: seq<byte>, a: Key, b: Key)
    requires Shared(u, a, b) && Shared(w, a, b) && |w| < |a| && |w| < |b|
    ensures u == w
  {
    assert |u| == |w|;
    assert u == a[..|u|] && w == a[..|w|];
  }

  /** Where "a" lies in a tree with "ab". */
  lemma StrayHere(t: Tree, m: map<Key, Value>)
    requires Good(t, m, {}) && Tame(t) && [97] in m && [97, 98] in m
    ensures StraysAt(t, [97, 0], [97, 0, 120]) && Fate(t, [97, 0, 120]) == Strayed
  {
    hide Fate, StraysAt, InnersOk, Plain, Placed, LeavesOk, Complete;
    NulPlace(t, m, [97], [97, 98]);
    var q := LeafOf(t, m, [97]);
    OnWayOrdered(q, [97, 0], [97]);
    assert NestedOk(q, t.look[q], [97, 0]);
    assert q == [97, 0];
    EndsAtLeaf(t, m, q, [97, 0, 120]);
  }

  lemma InnerHere(t: Tree, m: map<Key, Value>)
    requires Good(t, m, {}) && [97, 0, 98] in m && [97, 98] in m && [97, 0, 99] in m
    ensures Fate(t, [97]) == Panicked
  {
    hide Fate, InnersOk, Plain, Placed, LeavesOk, Complete;
    NulPlace(t, m, [97, 0, 98], [97, 98]);
    var x := ForkOf(t, m, [97, 0, 98], [97, 0, 99]);
    var w := x + t.look[x].prefix;
    assert |w| == 2 && w[0] == 97 && w[1] == 0;
    assert x <= w == [97, 0];
    Comparable(x, [97, 0], w);
    assert NestedOk(x, t.look[x], [97, 0]);
    EndsAtTerm(t, m, [97, 0], [97]);
  }

  const SAFE: set<Key> := {[97, 0, 98], [97, 98], [97, 0, 99]}

  lemma Apart(a: Key, b: Key)
    requires a in SAFE && b in SAFE
    ensures !(Term(a) <= b)
  {
    if |a| == 2 && |b| == 3 {
      assert Term(a)[1] == 98 && b[1] == 0;
    }
  }

  lemma SafeKeys()
    ensures Separable(SAFE) && Roomy(SAFE)
  {
    forall a, b | a in SAFE && b in SAFE && a != b ensures !Overlap(a, b) {
      Apart(a, b);
      Apart(b, a);
    }
    forall w, k | Common(w, SAFE) && k in SAFE ensures |w| <= |k| {
      var a, b :| a in SAFE && b in SAFE && a != b && w <= a && w <= b;
    }
  }

  // ----- four runs

  /** After keys "ab1" and "ab2", a Set of "a" never comes back. */
  method ShortKeyStuck(u: Value, v: Value, w: Value) returns (first: Passage, second: Passage, third: Passage)
    ensures first == Stored && second == Stored && third == Stuck
  {
    hide Good, Known, Looks, Node.Proper, Node.Kids, Panics, Loses, Strays, Explained, Tame, Tidy;
    var s := new ARTStore();
    NoWay(s.Now(), map[], [97, 98, 49]);
    first := s.Set([97, 98, 49], u);
    LooksAt(s.at, []);
    EndsAtLeaf(s.Now(), s.contents, [], [97, 98, 50]);
    second := s.Set([97, 98, 50], v);
    SharedIs(s.root.prefix, [97, 98], [97, 98, 49], [97, 98, 50]);
    LooksAt(s.at, []);
    assert BlockedAt(s.Now(), [], [97]);
    third := s.Set([97], w);
  }

  method Doubled(u: Value, v: Value) returns (s: ARTStore, first: Passage, second: Passage)
    ensures fresh(s) && s.Searchable() && first == Stored && second == Lost
    ensures OneLost(map[[97] := u], s.contents, [97, 0], v)
  {
    hide Good, Looks, Node.Proper, Node.Kids, Fate, Explained, Tame, Tidy, Twins, OneLost, Overlap, Shared, Misled,
         ARTStore.Misleads, Known;
    s := new ARTStore();
    NoWay(s.Now(), map[], [97]);
    first := s.Set([97], u);
    LooksAt(s.at, []);
    EndsAtLeaf(s.Now(), s.contents, [], [97, 0]);
    NulOverlap();
    second := s.Set([97, 0], v);
  }

  /** After "a", a Set of "a\0" loses one of them. */
  method NulLosesKey(u: Value, v: Value) returns (first: Passage, second: Passage, a: Lookup, b: Lookup)
    ensures first == Stored && second == Lost && (a == Missing <==> b != Missing)
  {
    hide Good, Looks, AllProper, Twins, OneLost;
    var s;
    s, first, second := Doubled(u, v);
    OneOfTwo(s.contents, u, v);
    a := s.Get([97]);
    b := s.Get([97, 0]);
  }

  lemma NulOverlap()
    ensures Overlap([97], [97, 0])
  {
    assert Term([97]) == [97, 0];
  }

  lemma OneOfTwo(m: map<Key, Value>, u: Value, v: Value)
    requires OneLost(map[[97] := u], m, [97, 0], v)
    ensures [97] in m <==> [97, 0] !in m
  {
  }

  /** A store with "a" and "ab". */
  method TwoKeys(u: Value, v: Value) returns (s: ARTStore)
    ensures fresh(s) && s.Valid() && (forall n :: n in s.at.Values ==> fresh(n))
    ensures Tame(s.Now()) && s.contents == map[[97] := u][[97, 98] := v]
  {
    hide Good, Looks, Node.Proper, Node.Kids, Fate, Explained, Tame, Tidy, Twins, Overlap, Shared, Misled;
    s := new ARTStore();
    NoWay(s.Now(), map[], [97]);
    var r := s.Set([97], u);
    LooksAt(s.at, []);
    EndsAtLeaf(s.Now(), s.contents, [], [97, 98]);
    NoOverlap();
    r := s.Set([97, 98], v);
  }

  lemma NoOverlap()
    ensures !Overlap([97], [97, 98])
  {
    assert Term([97])[1] == 0;
  }

  method ThreeKeys(u: Value, v: Value, w: Value) returns (s: ARTStore, fate: Passage)
    ensures fresh(s) && s.Valid() && fate == Strayed && Misled(s.Now(), [97, 0])
    ensures s.contents == map[[97] := u][[97, 98] := v][[97, 0, 120] := w]
  {
    hide Good, Looks, AllProper, Fate, Explained, Tame, Tidy, Twins, Misled, StraysAt, Shared, ARTStore.Misleads, Known;
    s := TwoKeys(u, v);
    StrayHere(s.Now(), s.contents);
    ghost var t, m := s.Now(), s.contents;
    fate := s.Set([97, 0, 120], w);
    ghost var p :| StraysAt(t, p, [97, 0, 120]) && Misled(s.Now(), p);
    StraysOnce(t, p, [97, 0], [97, 0, 120]) by { GoodNested(t, m); }
  }

  /** After "a" and "ab", a Set of "a\0x" keeps all three, but a search for the prefix "a\0" lists one too many. */
  method NulStrays(u: Value, v: Value, w: Value)
    returns (fate: Passage, a: Lookup, b: Lookup, c: Lookup, out: seq<Key>)
    ensures fate == Strayed && a == Found(u) && b == Found(v) && c == Found(w) && out != [[97, 0, 120]]
  {
    hide Good, Looks, AllProper, Tidy, Twins, Misled, ListsAll, ARTStore.Lists;
    var s;
    s, fate := ThreeKeys(u, v, w);
    TidyTwins(s.at, s.twin);
    a := s.Get([97]);
    b := s.Get([97, 98]);
    c := s.Get([97, 0, 120]);
    out := s.PrefixKeys([97, 0]);
    JustOne(s.contents, u, v, w);
    s.MisledReply([97, 0], out, [[97, 0, 120]]);
  }

  lemma JustOne(m: map<Key, Value>, u: Value, v: Value, w: Value)
    requires m == map[[97] := u][[97, 98] := v][[97, 0, 120] := w]
    ensures ListsAll(m, [97, 0], [[97, 0, 120]])
  {
    var p: Key, k: Key, l: Key := [97, 0], [97, 98], [97, 0, 120];
    assert !(p <= k) by { assert p[1] != k[1]; }
    assert p <= l;
  }

  method SafeSet(s: ARTStore, key: Key, value: Value) returns (r: Passage)
    requires s.Valid() && Known(s.Now(), SAFE) && key in SAFE
    modifies s, s.at.Values
    ensures r == Stored && s.Valid() && s.contents == old(s.contents)[key := value] && Known(s.Now(), SAFE)
    ensures forall n :: n in s.at.Values && n !in old(s.at.Values) ==> fresh(n)
  {
    hide Good, Known, Looks, AllProper, Fate, Tame, Tidy, Twins, Misled, Shared, Separable, Roomy;
    SafeKeys();
    FateOfKnown(s.Now(), s.contents, SAFE, key);
    r := s.Set(key, value);
  }

  /** After "a\0b", "ab" and "a\0c", a Set of "a" follows a nil pointer. */
  method NulPanics(u: Value) returns (first: Passage, second: Passage, third: Passage, fourth: Passage)
    ensures first == Stored && second == Stored && third == Stored && fourth == Panicked
  {
    hide Good, Known, Looks, AllProper, Fate, Tidy, Twins, Shared;
    var s := new ARTStore();
    first := SafeSet(s, [97, 0, 98], u);
    second := SafeSet(s, [97, 98], u);
    third := SafeSet(s, [97, 0, 99], u);
    InnerHere(s.Now(), s.contents);
    fourth := s.Set([97], u);
  }
}
