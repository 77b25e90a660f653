/** What the edits of a single leaf do to the whole B+ tree. */
module BPlusLeaf {
  import opened Bytes
  import opened BPlusShape
  import opened BPlusOrder
  import opened BPlusHeap

  /** All keys of `a` are below `key` and all of `b` above it. */
  ghost predicate Around(a: seq<Entry>, key: Key, b: seq<Entry>) {
    (forall e :: e in a ==> e.Item? && Less(e.k, key)) && (forall e :: e in b ==> e.Item? && Less(key, e.k))
  }

  ghost predicate Lacks(es: seq<Entry>, key: Key) {
    forall e :: e in es && e.Item? ==> e.k != key
  }

  lemma HoldsInsert(l: seq<Entry>, key: Key, v: Value, r: seq<Entry>, m: map<Key, Value>)
    requires Holds(l + r, m) && Lacks(l, key) && Lacks(r, key)
    ensures key !in m && Holds(l + [Item(key, v)] + r, m[key := v])
  {
    var es, m' := l + [Item(key, v)] + r, m[key := v];
    assert key !in m;
    forall k | k in m' ensures Item(k, m'[k]) in es {
      assert k != key ==> Item(k, m[k]) in l + r;
      assert Item(key, v) in [Item(key, v)];
    }
  }

  lemma HoldsDelete(l: seq<Entry>, key: Key, v: Value, r: seq<Entry>, m: map<Key, Value>)
    requires Holds(l + [Item(key, v)] + r, m) && Lacks(l, key) && Lacks(r, key)
    ensures key in m && m[key] == v && Holds(l + r, m - {key})
  {
    var m' := m - {key};
    assert Item(key, v) in l + [Item(key, v)] + r;
    forall k | k in m' ensures Item(k, m'[k]) in l + r {
      assert Item(k, m[k]) in l + [Item(key, v)] + r;
    }
  }

  lemma SortedDelete(l: seq<Entry>, key: Key, v: Value, r: seq<Entry>)
    requires Sorted(l + [Item(key, v)] + r)
    ensures Sorted(l + r) && Lacks(l, key) && Lacks(r, key)
    ensures (forall e :: e in l && e.Item? ==> Less(e.k, key)) && (forall e :: e in r ==> Less(key, e.k))
  {
    var x := Item(key, v);
    SortedSplit(l + [x], r);
    SortedSplit(l, [x]);
    assert x in [x] && x in l + [x];
    LessIrreflexive(key);
    assert l + [x] + r == l + ([x] + r);
    SortedSplit(l, [x] + r);
    SortedJoin(l, r);
  }

  lemma InsertReads(pre: seq<Entry>, a: seq<Entry>, b: seq<Entry>, post: seq<Entry>, key: Key, v: Value,
                    m: map<Key, Value>)
    requires Reads(pre + (a + b) + post, m) && Brackets(pre, key, post) && Around(a, key, b)
    ensures key !in m && Reads(pre + (a + [Item(key, v)] + b) + post, m[key := v])
  {
    var l, r, x := pre + a, b + post, Item(key, v);
    assert pre + (a + b) + post == l + r;
    assert pre + (a + [x] + b) + post == l + [x] + r;
    LessIrreflexive(key);
    SortedInsert(l, x, r);
    HoldsInsert(l, key, v, r, m);
  }

  lemma DeleteReads(pre: seq<Entry>, a: seq<Entry>, b: seq<Entry>, post: seq<Entry>, key: Key, v: Value,
                    m: map<Key, Value>)
    requires Reads(pre + (a + [Item(key, v)] + b) + post, m)
    requires forall e :: e in a + b ==> e.Item?
    ensures key in m && m[key] == v && Around(a, key, b)
    ensures Reads(pre + (a + b) + post, m - {key})
  {
    hide Sorted, Holds, Lacks;
    var l, r, x := pre + a, b + post, Item(key, v);
    assert pre + (a + b) + post == l + r;
    assert pre + (a + [x] + b) + post == l + [x] + r;
    SortedDelete(l, key, v, r);
    HoldsDelete(l, key, v, r, m);
    forall e | e in a ensures e.Item? && Less(e.k, key) { assert e in a + b && e in l; }
    forall e | e in b ensures e.Item? && Less(key, e.k) { assert e in a + b && e in r; }
  }

  lemma UpdateReads(pre: seq<Entry>, a: seq<Entry>, b: seq<Entry>, post: seq<Entry>, key: Key, v: Value, v': Value,
                    m: map<Key, Value>)
    requires Reads(pre + (a + [Item(key, v)] + b) + post, m) && Brackets(pre, key, post)
    requires forall e :: e in a + b ==> e.Item?
    ensures key in m && m[key] == v
    ensures Reads(pre + (a + [Item(key, v')] + b) + post, m[key := v'])
  {
    DeleteReads(pre, a, b, post, key, v, m);
    InsertReads(pre, a, b, post, key, v', m - {key});
    assert (m - {key})[key := v'] == m[key := v'];
  }

  /** A bracketed key is in the tree only if it is in the bracketed leaf. */
  lemma AbsentReads(pre: seq<Entry>, es: seq<Entry>, post: seq<Entry>, key: Key, m: map<Key, Value>)
    requires Reads(pre + es + post, m) && Brackets(pre, key, post)
    requires forall e :: e in es ==> e.k != key
    ensures key !in m
  {
    LessIrreflexive(key);
    assert Lacks(pre + es + post, key);
  }

  lemma LeafFacts(t: Tree, p: seq<nat>, s: Tree, h': Heap)
    requires OnPath(t, p) && At(t, p).Leaf? && s.Leaf? && s.node == At(t, p).node && Mirrors(s, h')
    ensures Nodes(s) == Nodes(At(t, p)) == {s.node} && Distinct(s) && Formed(s) && s.node in h'
    ensures Leaves(s) == Leaves(At(t, p)) == [s.node]
  {
  }

  /** The heap after new keys and values were assigned to the leaf that `s` describes. */
  ghost function Rewritten(h: Heap, s: Tree): Heap
    requires s.Leaf? && s.node in h
  {
    h[s.node := h[s.node].(keys := s.keys, values := s.vals)]
  }

  lemma LeafMirrors(s: Tree, h: Heap)
    requires s.Leaf? && |s.vals| == |s.keys| && s.node in h && h[s.node].leaf
    requires h[s.node].keys == s.keys && h[s.node].values == s.vals
    ensures Mirrors(s, h) && Nodes(s) == {s.node}
  {
  }

  lemma ReplacedAt(t: Tree, p: seq<nat>, s: Tree)
    requires OnPath(t, p)
    ensures OnPath(Replace(t, p, s), p) && At(Replace(t, p, s), p) == s
    ensures s.node == At(t, p).node ==> Replace(t, p, s).node == t.node
  {
    ReplaceAround(t, p, s);
  }

  lemma RewrittenFrame(t: Tree, p: seq<nat>, s: Tree, h: Heap)
    requires OnPath(t, p) && At(t, p).Leaf? && s.Leaf? && s.node == At(t, p).node && |s.vals| == |s.keys|
    requires Mirrors(t, h)
    ensures s.node in h && s.node in Nodes(t) && Mirrors(s, Rewritten(h, s)) && Replace(t, p, s).node == t.node
    ensures Agree(Nodes(t) - {s.node}, h, Rewritten(h, s)) && Rewritten(h, s)[s.node].next == h[s.node].next
  {
    MirrorsAt(t, p, h);
    NodesAt(t, p);
    LeafMirrors(s, Rewritten(h, s));
    ReplacedAt(t, p, s);
  }

  /** Rewriting the keys and values of one leaf, and nothing else. */
  lemma EditFrame(t: Tree, p: seq<nat>, s: Tree, h: Heap, h': Heap)
    requires OnPath(t, p) && At(t, p).Leaf? && s.Leaf? && s.node == At(t, p).node
    requires Mirrors(t, h) && Distinct(t) && Formed(t) && Chained(Leaves(t), h) && Mirrors(s, h')
    requires s.node in h && Agree(Nodes(t) - {s.node}, h, h') && h'[s.node].next == h[s.node].next
    ensures Formed(At(t, p))
    ensures Mirrors(Replace(t, p, s), h') && Distinct(Replace(t, p, s)) && Formed(Replace(t, p, s))
    ensures Nodes(Replace(t, p, s)) == Nodes(t)
    ensures OnPath(Replace(t, p, s), p) && At(Replace(t, p, s), p) == s
    ensures Leaves(Replace(t, p, s)) == Leaves(t) && Chained(Leaves(Replace(t, p, s)), h')
    ensures Flat(t) == Pre(t, p) + Flat(At(t, p)) + Post(t, p)
    ensures Flat(Replace(t, p, s)) == Pre(t, p) + Flat(s) + Post(t, p)
  {
    hide Nodes, Distinct, Mirrors, Leaves, Replace, At, OnPath, Flat, Formed, Pre, Post, Reads;
    LeafFacts(t, p, s, h');
    NodesAt(t, p);
    ReadAt(t, p);
    ReplaceNodes(t, p, s);
    MirrorsReplace(t, p, s, h, h');
    ReplaceAround(t, p, s);
    ReplaceFlat(t, p, s);
    LeavesAt(t, p);
    LeavesInNodes(t);
    LeavesAreLeaves(t, h);
    ChainFrame(Leaves(t), h, h');
  }

  lemma {:induction false} OkSparse(t: Tree, h: nat, dense: bool, root: bool)
    requires Ok(t, h, dense, root)
    ensures Ok(t, h, false, root)
  {
    if t.Internal? {
      forall i | 0 <= i < |t.kids|
        ensures Ok(t.kids[i], h - 1, false, false)
      {
        OkSparse(t.kids[i], h - 1, dense, false);
      }
    }
  }

  lemma SplitItems(ks: seq<Key>, vs: seq<Value>, i: nat)
    requires |ks| == |vs| && i <= |ks|
    ensures Items(ks, vs) == Items(ks[..i], vs[..i]) + Items(ks[i..], vs[i..])
  {
  }

  /** A leaf with a new key inserted at its place. */
  ghost function Inserted(s: Tree, i: nat, key: Key, v: Value): Tree
    requires s.Leaf? && |s.vals| == |s.keys| && i <= |s.keys|
  {
    Leaf(s.node, s.keys[..i] + [key] + s.keys[i..], s.vals[..i] + [v] + s.vals[i..])
  }

  lemma InsertedReads(t: Tree, p: seq<nat>, i: nat, key: Key, v: Value, m: map<Key, Value>)
    requires OnPath(t, p) && Formed(t) && At(t, p).Leaf? && |At(t, p).vals| == |At(t, p).keys| && i <= |At(t, p).keys|
    requires Reads(Pre(t, p) + Flat(At(t, p)) + Post(t, p), m) && Brackets(Pre(t, p), key, Post(t, p))
    requires forall j :: 0 <= j < i ==> Less(At(t, p).keys[j], key)
    requires forall j :: i <= j < |At(t, p).keys| ==> Less(key, At(t, p).keys[j])
    ensures key !in m && Reads(Pre(t, p) + Flat(Inserted(At(t, p), i, key, v)) + Post(t, p), m[key := v])
  {
    hide Reads, Brackets;
    var s := At(t, p);
    var s' := Inserted(s, i, key, v);
    var a, b := Items(s.keys[..i], s.vals[..i]), Items(s.keys[i..], s.vals[i..]);
    SplitItems(s.keys, s.vals, i);
    assert Items(s'.keys, s'.vals) == a + [Item(key, v)] + b;
    assert Around(a, key, b);
    InsertReads(Pre(t, p), a, b, Post(t, p), key, v, m);
  }

  /** Inserting a new key keeps everything, except that the leaf may now be overfull. */
  lemma InsertStep(t: Tree, p: seq<nat>, i: nat, key: Key, v: Value, h: Heap, height: nat, dense: bool,
                   m: map<Key, Value>)
    requires Good(t, h, height, dense, m) && OnPath(t, p) && At(t, p).Leaf?
    requires |At(t, p).vals| == |At(t, p).keys| && i <= |At(t, p).keys|
    requires Brackets(Pre(t, p), key, Post(t, p))
    requires forall j :: 0 <= j < i ==> Less(At(t, p).keys[j], key)
    requires forall j :: i <= j < |At(t, p).keys| ==> Less(key, At(t, p).keys[j])
    requires At(t, p).node in h
    ensures var t' := Replace(t, p, Inserted(At(t, p), i, key, v));
            && Nodes(t') == Nodes(t) && t'.node == t.node
            && if |At(t, p).keys| + 1 < ORDER
               then Good(t', Rewritten(h, Inserted(At(t, p), i, key, v)), height, dense, m[key := v])
               else Overfull(t', Rewritten(h, Inserted(At(t, p), i, key, v)), p, height, dense, m[key := v])
  {
    hide Mirrors, Distinct, Formed, Flat, Leaves, Nodes, Replace, Chained, Reads, Brackets, Pre, Post, OnPath, At,
         OkElsewhere, Rewritten, Agree;
    var s := At(t, p);
    var s' := Inserted(s, i, key, v);
    RewrittenFrame(t, p, s', h);
    EditFrame(t, p, s', h, Rewritten(h, s'));
    InsertedReads(t, p, i, key, v, m);
    OkAt(t, p, height, dense, true);
    OkReplace(t, p, s', height, dense, true);
  }

  /** A leaf with the value at `i` replaced. */
  ghost function Updated(s: Tree, i: nat, v: Value): Tree
    requires s.Leaf? && i < |s.vals|
  {
    Leaf(s.node, s.keys, s.vals[i := v])
  }

  /** A leaf without its entry at `i`. */
  ghost function Removed(s: Tree, i: nat): Tree
    requires s.Leaf? && i < |s.vals| == |s.keys|
  {
    Leaf(s.node, s.keys[..i] + s.keys[i + 1..], s.vals[..i] + s.vals[i + 1..])
  }

  lemma ItemsAround(ks: seq<Key>, vs: seq<Value>, i: nat)
    requires i < |ks| == |vs|
    ensures Items(ks, vs) == Items(ks[..i], vs[..i]) + [Item(ks[i], vs[i])] + Items(ks[i + 1..], vs[i + 1..])
  {
  }

  lemma UpdatedReads(t: Tree, p: seq<nat>, i: nat, key: Key, v: Value, m: map<Key, Value>)
    requires OnPath(t, p) && Formed(t) && At(t, p).Leaf?
    requires i < |At(t, p).vals| == |At(t, p).keys| && At(t, p).keys[i] == key
    requires Reads(Pre(t, p) + Flat(At(t, p)) + Post(t, p), m) && Brackets(Pre(t, p), key, Post(t, p))
    ensures key in m && m[key] == At(t, p).vals[i]
    ensures Reads(Pre(t, p) + Flat(Updated(At(t, p), i, v)) + Post(t, p), m[key := v])
    ensures Reads(Pre(t, p) + Flat(Removed(At(t, p), i)) + Post(t, p), m - {key})
  {
    hide Reads, Brackets, Pre, Post, At, OnPath, Formed;
    var s := At(t, p);
    var a, b := Items(s.keys[..i], s.vals[..i]), Items(s.keys[i + 1..], s.vals[i + 1..]);
    EditedFlat(s, i, v);
    UpdateReads(Pre(t, p), a, b, Post(t, p), key, s.vals[i], v, m);
    DeleteReads(Pre(t, p), a, b, Post(t, p), key, s.vals[i], m);
  }

  lemma EditedFlat(s: Tree, i: nat, v: Value)
    requires s.Leaf? && i < |s.vals| == |s.keys|
    ensures Formed(s) && Formed(Updated(s, i, v)) && Formed(Removed(s, i))
    ensures Flat(s) == Items(s.keys[..i], s.vals[..i]) + [Item(s.keys[i], s.vals[i])] +
              Items(s.keys[i + 1..], s.vals[i + 1..])
    ensures Flat(Updated(s, i, v)) == Items(s.keys[..i], s.vals[..i]) + [Item(s.keys[i], v)] +
              Items(s.keys[i + 1..], s.vals[i + 1..])
    ensures Flat(Removed(s, i)) == Items(s.keys[..i], s.vals[..i]) + Items(s.keys[i + 1..], s.vals[i + 1..])
  {
    ItemsAround(s.keys, s.vals, i);
    var vs := s.vals[i := v];
    ItemsAround(s.keys, vs, i);
    assert vs[..i] == s.vals[..i] && vs[i + 1..] == s.vals[i + 1..];
    ItemsJoin(s.keys[..i], s.vals[..i], s.keys[i + 1..], s.vals[i + 1..]);
  }

  lemma ItemsJoin(ks: seq<Key>, vs: seq<Value>, ks': seq<Key>, vs': seq<Value>)
    requires |ks| == |vs| && |ks'| == |vs'|
    ensures Items(ks + ks', vs + vs') == Items(ks, vs) + Items(ks', vs')
  {
  }

  /** Overwriting a stored key. */
  lemma UpdateStep(t: Tree, p: seq<nat>, i: nat, key: Key, v: Value, h: Heap, height: nat, dense: bool,
                   m: map<Key, Value>)
    requires Good(t, h, height, dense, m) && OnPath(t, p) && At(t, p).Leaf? && i < |At(t, p).vals| == |At(t, p).keys|
    requires Brackets(Pre(t, p), key, Post(t, p)) && At(t, p).keys[i] == key
    requires At(t, p).node in h
    ensures Nodes(Replace(t, p, Updated(At(t, p), i, v))) == Nodes(t)
    ensures Replace(t, p, Updated(At(t, p), i, v)).node == t.node
    ensures Good(Replace(t, p, Updated(At(t, p), i, v)), Rewritten(h, Updated(At(t, p), i, v)), height, dense,
                 m[key := v])
  {
    hide Mirrors, Distinct, Formed, Flat, Leaves, Nodes, Replace, Chained, Reads, Brackets, Pre, Post, OnPath, At,
         OkElsewhere, Rewritten, Agree;
    var s' := Updated(At(t, p), i, v);
    RewrittenFrame(t, p, s', h);
    EditFrame(t, p, s', h, Rewritten(h, s'));
    UpdatedReads(t, p, i, key, v, m);
    OkAt(t, p, height, dense, true);
    OkReplace(t, p, s', height, dense, true);
  }

  /** Deleting a stored key: the leaf may drop below half, or even become empty. */
  lemma DeleteStep(t: Tree, p: seq<nat>, i: nat, key: Key, h: Heap, height: nat, dense: bool, m: map<Key, Value>)
    requires Good(t, h, height, dense, m) && OnPath(t, p) && At(t, p).Leaf? && i < |At(t, p).vals| == |At(t, p).keys|
    requires Brackets(Pre(t, p), key, Post(t, p)) && At(t, p).keys[i] == key
    requires At(t, p).node in h
    ensures Nodes(Replace(t, p, Removed(At(t, p), i))) == Nodes(t) && Replace(t, p, Removed(At(t, p), i)).node == t.node
    ensures Good(Replace(t, p, Removed(At(t, p), i)), Rewritten(h, Removed(At(t, p), i)), height, false, m - {key})
  {
    hide Mirrors, Distinct, Formed, Flat, Leaves, Nodes, Replace, Chained, Reads, Brackets, Pre, Post, OnPath, At,
         OkElsewhere, Rewritten, Agree;
    var s' := Removed(At(t, p), i);
    RewrittenFrame(t, p, s', h);
    EditFrame(t, p, s', h, Rewritten(h, s'));
    UpdatedReads(t, p, i, key, [], m);
    OkSparse(t, height, dense, true);
    OkAt(t, p, height, false, true);
    OkReplace(t, p, s', height, false, true);
  }

  /** What a leaf search finds is what the map holds. */
  lemma LookupStep(t: Tree, p: seq<nat>, i: nat, key: Key, h: Heap, height: nat, dense: bool, m: map<Key, Value>)
    requires Good(t, h, height, dense, m) && OnPath(t, p) && At(t, p).Leaf? && i <= |At(t, p).vals| == |At(t, p).keys|
    requires Brackets(Pre(t, p), key, Post(t, p))
    requires forall j :: 0 <= j < i ==> Less(At(t, p).keys[j], key)
    requires forall j :: i <= j < |At(t, p).keys| ==> AtMost(key, At(t, p).keys[j])
    ensures if i < |At(t, p).keys| && At(t, p).keys[i] == key then key in m && m[key] == At(t, p).vals[i] else key !in m
    ensures Ascending(At(t, p).keys)
  {
    hide Reads, Brackets, Pre, Post, At, OnPath, Mirrors, Ok, Distinct, Chained;
    var s := At(t, p);
    ReadAt(t, p);
    LeafAscends(t, p, m);
    if i < |s.keys| && s.keys[i] == key {
      UpdatedReads(t, p, i, key, [], m);
    } else {
      NotAtIndex(s.keys, i, key);
      AbsentReads(Pre(t, p), Flat(s), Post(t, p), key, m);
    }
  }

  lemma NotAtIndex(ks: seq<Key>, i: nat, key: Key)
    requires i <= |ks| && Ascending(ks) && (i < |ks| ==> ks[i] != key)
    requires forall j :: 0 <= j < i ==> Less(ks[j], key)
    requires forall j :: i <= j < |ks| ==> AtMost(key, ks[j])
    ensures key !in ks
  {
    LessIrreflexive(key);
    forall j | i < j < |ks| ensures ks[j] != key { Between(key, ks[i], ks[j]); }
  }

  lemma LeafAscends(t: Tree, p: seq<nat>, m: map<Key, Value>)
    requires Formed(t) && Reads(Flat(t), m) && OnPath(t, p)
    ensures Ascending(At(t, p).keys)
  {
    SortedAt(t, p);
    KeysAscend(At(t, p));
  }
}
