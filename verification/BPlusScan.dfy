/** The leaf chain of a B+ tree lists all stored keys in order, and a dense tree is low. */
module BPlusScan {
  import opened Bytes
  import opened BPlusShape
  import opened BPlusOrder
  import opened BPlusHeap

  /** The keys of the items, separators skipped. */
  ghost function KeysOf(es: seq<Entry>): seq<Key> {
    if es == [] then [] else (if es[0].Item? then [es[0].k] else []) + KeysOf(es[1..])
  }

  /** The keys stored in a run of leaves. */
  ghost function Stored(ls: seq<Node>, h: Heap): seq<Key>
    requires forall n :: n in ls ==> n in h
  {
    if ls == [] then [] else h[ls[0]].keys + Stored(ls[1..], h)
  }

  lemma {:induction false} KeysOfJoin(a: seq<Entry>, b: seq<Entry>)
    ensures KeysOf(a + b) == KeysOf(a) + KeysOf(b)
  {
    if a == [] {
      assert a + b == b;
    } else {
      assert (a + b)[1..] == a[1..] + b;
      KeysOfJoin(a[1..], b);
    }
  }

  lemma {:induction false} StoredJoin(a: seq<Node>, b: seq<Node>, h: Heap)
    requires (forall n :: n in a ==> n in h) && (forall n :: n in b ==> n in h)
    ensures forall n :: n in a + b ==> n in h
    ensures Stored(a + b, h) == Stored(a, h) + Stored(b, h)
  {
    if a == [] {
      assert a + b == b;
    } else {
      assert (a + b)[1..] == a[1..] + b;
      StoredJoin(a[1..], b, h);
    }
  }

  lemma {:induction false} KeysOfItems(ks: seq<Key>, vs: seq<Value>)
    requires |ks| == |vs|
    ensures KeysOf(Items(ks, vs)) == ks
  {
    if ks != [] {
      assert Items(ks, vs)[1..] == Items(ks[1..], vs[1..]);
      KeysOfItems(ks[1..], vs[1..]);
    }
  }

  /** Reading the leaves one after the other reads the keys of the whole tree. */
  lemma {:induction false} LeavesRead(t: Tree, h: Heap)
    requires Mirrors(t, h) && Formed(t)
    ensures forall n :: n in Leaves(t) ==> n in h
    ensures Stored(Leaves(t), h) == KeysOf(Flat(t))
    decreases t, 0
  {
    match t
    case Leaf(n, ks, vs) =>
      KeysOfItems(ks, vs);
      assert Stored([n], h) == ks + Stored([n][1..], h);
    case Internal(_, ks, cs) => KidsRead(ks, cs, h);
  }

  lemma {:induction false} KidsRead(ks: seq<Key>, cs: seq<Tree>, h: Heap)
    requires |cs| == |ks| + 1 && (forall c :: c in cs ==> Formed(c)) && forall i :: 0 <= i < |cs| ==> Mirrors(cs[i], h)
    ensures forall n :: n in LeavesOf(cs) ==> n in h
    ensures Stored(LeavesOf(cs), h) == KeysOf(FlatKids(ks, cs))
    decreases cs, 1
  {
    hide Mirrors, Formed, Flat, Leaves;
    LeavesRead(cs[0], h);
    if ks == [] {
      assert LeavesOf(cs) == Leaves(cs[0]) by { assert cs[1..] == []; }
      assert FlatKids(ks, cs) == Flat(cs[0]);
    } else {
      var f, g := Flat(cs[0]), FlatKids(ks[1..], cs[1..]);
      KidsRead(ks[1..], cs[1..], h);
      StoredJoin(Leaves(cs[0]), LeavesOf(cs[1..]), h);
      KeysOfJoin(f + [Sep(ks[0])], g);
      KeysOfJoin(f, [Sep(ks[0])]);
      assert KeysOf([Sep(ks[0])]) == [];
    }
  }

  lemma BeforeRead(ks: seq<Key>, cs: seq<Tree>, i: nat, h: Heap)
    requires i < |cs| == |ks| + 1 && (forall c :: c in cs ==> Formed(c))
    requires forall j :: 0 <= j < |cs| ==> Mirrors(cs[j], h)
    ensures forall n :: n in LeavesOf(cs[..i]) ==> n in h
    ensures Stored(LeavesOf(cs[..i]), h) == KeysOf(Before(ks, cs, i))
  {
    hide Mirrors, Formed;
    if i > 0 {
      KidsRead(ks[..i - 1], cs[..i], h);
      KeysOfJoin(FlatKids(ks[..i - 1], cs[..i]), [Sep(ks[i - 1])]);
      assert KeysOf([Sep(ks[i - 1])]) == [];
    }
  }

  lemma {:induction false} PreRead(t: Tree, p: seq<nat>, h: Heap)
    requires Mirrors(t, h) && Formed(t) && OnPath(t, p)
    ensures forall n :: n in LeavesBefore(t, p) ==> n in h
    ensures Stored(LeavesBefore(t, p), h) == KeysOf(Pre(t, p))
  {
    if p != [] {
      var i, c := p[0], t.kids[p[0]];
      assert c in t.kids;
      PreRead(c, p[1..], h);
      BeforeRead(t.keys, t.kids, i, h);
      StoredJoin(LeavesOf(t.kids[..i]), LeavesBefore(c, p[1..]), h);
      KeysOfJoin(Before(t.keys, t.kids, i), Pre(c, p[1..]));
    }
  }

  lemma {:induction false} KeysOfMember(es: seq<Entry>, k: Key)
    ensures k in KeysOf(es) <==> exists e :: e in es && e.Item? && e.k == k
  {
    if es != [] {
      KeysOfMember(es[1..], k);
      assert es == [es[0]] + es[1..];
      assert k in KeysOf(es) <==> (es[0].Item? && es[0].k == k) || k in KeysOf(es[1..]);
    }
  }

  lemma {:induction false} KeysOfAscend(es: seq<Entry>)
    requires Sorted(es)
    ensures Ascending(KeysOf(es))
  {
    if es != [] {
      assert es == [es[0]] + es[1..];
      SortedSplit([es[0]], es[1..]);
      KeysOfAscend(es[1..]);
      if es[0].Item? {
        forall k | k in KeysOf(es[1..]) ensures Less(es[0].k, k) {
          KeysOfMember(es[1..], k);
          var e :| e in es[1..] && e.Item? && e.k == k;
          assert Follows(es[0], e);
        }
      }
    }
  }

  /** Along the chain the stored keys ascend, and they are the keys of the map. */
  lemma ChainLists(t: Tree, h: Heap, height: nat, dense: bool, m: map<Key, Value>)
    requires Good(t, h, height, dense, m)
    ensures forall n :: n in Leaves(t) ==> n in h
    ensures Ascending(Stored(Leaves(t), h))
    ensures forall k :: k in Stored(Leaves(t), h) <==> k in m
  {
    LeavesRead(t, h);
    KeysOfAscend(Flat(t));
    forall k ensures k in KeysOf(Flat(t)) <==> k in m {
      KeysOfMember(Flat(t), k);
      assert k in m ==> Item(k, m[k]) in Flat(t);
    }
  }

  /** Every key in a leaf left of a bracketed position is below the key searched for. */
  lemma LeftOfSearch(t: Tree, p: seq<nat>, key: Key, h: Heap)
    requires Mirrors(t, h) && Formed(t) && OnPath(t, p) && Brackets(Pre(t, p), key, Post(t, p))
    ensures forall n :: n in LeavesBefore(t, p) ==> n in h
    ensures forall k :: k in Stored(LeavesBefore(t, p), h) ==> Less(k, key)
  {
    PreRead(t, p, h);
    forall k | k in KeysOf(Pre(t, p)) ensures Less(k, key) {
      KeysOfMember(Pre(t, p), k);
    }
  }

  /** Where the keys of the leaf at index `j` lie among all stored keys. */
  ghost function Offset(ls: seq<Node>, j: nat, h: Heap): nat
    requires j <= |ls| && forall n :: n in ls ==> n in h
  {
    |Stored(ls[..j], h)|
  }

  lemma OffsetAt(ls: seq<Node>, j: nat, h: Heap)
    requires j < |ls| && forall n :: n in ls ==> n in h
    ensures Offset(ls, j + 1, h) == Offset(ls, j, h) + |h[ls[j]].keys| <= |Stored(ls, h)|
    ensures forall i :: 0 <= i < |h[ls[j]].keys| ==> Stored(ls, h)[Offset(ls, j, h) + i] == h[ls[j]].keys[i]
    ensures Offset(ls, |ls|, h) == |Stored(ls, h)|
  {
    var a, b, c := ls[..j], [ls[j]], ls[j + 1..];
    assert ls == a + b + c && ls[..j + 1] == a + b && ls[..|ls|] == ls;
    StoredJoin(a, b, h);
    StoredJoin(a + b, c, h);
    assert Stored(b, h) == h[ls[j]].keys + Stored(b[1..], h);
  }

  /** A scan that starts at the leaf found for `key` misses nothing at or above `key`. */
  lemma ScanStart(t: Tree, p: seq<nat>, key: Key, h: Heap, height: nat, dense: bool, m: map<Key, Value>,
                  keep: Key -> bool)
    requires Good(t, h, height, dense, m) && OnPath(t, p) && At(t, p).Leaf? && Brackets(Pre(t, p), key, Post(t, p))
    requires forall k :: keep(k) ==> AtMost(key, k)
    ensures forall n :: n in Leaves(t) ==> n in h
    ensures |LeavesBefore(t, p)| < |Leaves(t)| && Leaves(t)[|LeavesBefore(t, p)|] == At(t, p).node
    ensures Offset(Leaves(t), |LeavesBefore(t, p)|, h) <= |Stored(Leaves(t), h)|
    ensures Select(Stored(Leaves(t), h)[..Offset(Leaves(t), |LeavesBefore(t, p)|, h)], keep) == []
  {
    hide Mirrors, Brackets, Pre, Post, Leaves, Reads, Ok;
    var a := LeavesBefore(t, p);
    LeavesRead(t, h);
    LeavesAt(t, p);
    LeftOfSearch(t, p, key, h);
    LeafAlone(At(t, p));
    assert Leaves(t) == a + ([At(t, p).node] + LeavesAfter(t, p));
    StoredJoin(a, [At(t, p).node] + LeavesAfter(t, p), h);
    assert Leaves(t)[..|a|] == a;
    assert Stored(Leaves(t), h)[..|Stored(a, h)|] == Stored(a, h);
    SelectNone(Stored(a, h), keep);
  }

  /** One link of the chain. */
  lemma ChainStep(t: Tree, h: Heap, height: nat, dense: bool, m: map<Key, Value>, j: nat)
    requires Good(t, h, height, dense, m) && j < |Leaves(t)|
    ensures Leaves(t)[j] in Nodes(t) && Leaves(t)[j] in h && h[Leaves(t)[j]].next == NextIn(Leaves(t), j)
  {
    LeavesInNodes(t);
  }

  lemma LeafAlone(t: Tree)
    requires t.Leaf?
    ensures Leaves(t) == [t.node]
  {
  }

  // ----- height

  function Pow16(h: nat): nat {
    if h == 0 then 1 else 16 * Pow16(h - 1)
  }

  lemma {:induction false} FillBelow(t: Tree, h: nat)
    requires Ok(t, h, true, false)
    ensures Formed(t) && |KeysOf(Flat(t))| >= Pow16(h) * 16
  {
    OkFormed(t, h, true, false);
    match t
    case Leaf(_, ks, vs) => KeysOfItems(ks, vs);
    case Internal(_, ks, cs) =>
      KidsFill(ks, cs, h - 1);
      assert |cs| * (Pow16(h - 1) * 16) >= 16 * (Pow16(h - 1) * 16) by { Scale(16, |cs|, Pow16(h - 1) * 16); }
  }

  lemma Scale(a: nat, b: nat, x: nat)
    requires a <= b
    ensures a * x <= b * x
  {
  }

  lemma {:induction false} KidsFill(ks: seq<Key>, cs: seq<Tree>, h: nat)
    requires |cs| == |ks| + 1 && forall i :: 0 <= i < |cs| ==> Ok(cs[i], h, true, false)
    ensures forall c :: c in cs ==> Formed(c)
    ensures |KeysOf(FlatKids(ks, cs))| >= |cs| * (Pow16(h) * 16)
    decreases cs, 1
  {
    FillBelow(cs[0], h);
    if ks != [] {
      KidsFill(ks[1..], cs[1..], h);
      assert cs == [cs[0]] + cs[1..];
      KeysOfJoin(Flat(cs[0]) + [Sep(ks[0])], FlatKids(ks[1..], cs[1..]));
      KeysOfJoin(Flat(cs[0]), [Sep(ks[0])]);
      assert |cs| * (Pow16(h) * 16) == Pow16(h) * 16 + (|cs| - 1) * (Pow16(h) * 16);
    }
  }

  lemma {:induction false} AscendingCount(ks: seq<Key>, s: set<Key>)
    requires Ascending(ks) && forall k :: k in ks <==> k in s
    ensures |ks| == |s|
  {
    if ks == [] {
      assert s == {};
    } else {
      assert ks == [ks[0]] + ks[1..];
      forall k ensures k in ks[1..] <==> k in s - {ks[0]} {
        LessIrreflexive(ks[0]);
        assert k in ks <==> k == ks[0] || k in ks[1..];
      }
      AscendingCount(ks[1..], s - {ks[0]});
    }
  }

  /** A tree from which nothing was deleted holds at least 2 * 16^h keys when it has h levels of internal nodes. */
  lemma HeightBound(t: Tree, h: Heap, height: nat, m: map<Key, Value>)
    requires Good(t, h, height, true, m) && height >= 1
    ensures |m| >= 2 * Pow16(height)
  {
    KidsFill(t.keys, t.kids, height - 1);
    LeavesRead(t, h);
    ChainLists(t, h, height, true, m);
    AscendingCount(KeysOf(Flat(t)), m.Keys);
    Scale(2, |t.kids|, Pow16(height - 1) * 16);
  }
}
