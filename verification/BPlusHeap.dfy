/** How a B+ tree's shape lies in the heap, and what each step of an insertion does to it:
    a node becomes overfull, it is halved and its right half waits to be attached, the
    parent takes it and may become overfull in turn. */
module BPlusHeap {
  import opened Bytes
  import opened BPlusShape
  import opened BPlusOrder

  /** What a node holds. */
  datatype Data = Data(leaf: bool, keys: seq<Key>, values: seq<Value>, children: seq<Node>, next: Node?)

  type Heap = map<Node, Data>

  ghost function Snap(ns: set<Node>): (h: Heap)
    reads ns
    ensures h.Keys == ns
  {
    map n | n in ns :: Data(n.leaf, n.keys, n.values, n.children, n.next)
  }

  /** In the heap `h`, the nodes below `t.node` form the shape `t`. */
  ghost predicate Mirrors(t: Tree, h: Heap) {
    t.node in h &&
    match t
    case Leaf(n, ks, vs) => h[n].leaf && h[n].keys == ks && h[n].values == vs && |vs| == |ks|
    case Internal(n, ks, cs) =>
      && !h[n].leaf && h[n].keys == ks
      && |h[n].children| == |cs| == |ks| + 1
      && (forall i :: 0 <= i < |cs| ==> h[n].children[i] == cs[i].node && Mirrors(cs[i], h))
  }

  /** The leaves are linked from left to right. */
  ghost predicate Chained(ls: seq<Node>, h: Heap) {
    forall i :: 0 <= i < |ls| ==> ls[i] in h && h[ls[i]].next == NextIn(ls, i)
  }

  ghost function NextIn(ls: seq<Node>, i: nat): Node? {
    if i + 1 < |ls| then ls[i + 1] else null
  }

  /** The map a flat reading stands for. */
  ghost predicate Holds(es: seq<Entry>, m: map<Key, Value>) {
    && (forall e :: e in es && e.Item? ==> e.k in m && m[e.k] == e.v)
    && (forall k :: k in m ==> Item(k, m[k]) in es)
  }

  /** The reading is in order and stands for `m`. */
  ghost predicate Reads(es: seq<Entry>, m: map<Key, Value>) {
    Sorted(es) && Holds(es, m)
  }

  lemma {:induction false} MirrorsAt(t: Tree, p: seq<nat>, h: Heap)
    requires Mirrors(t, h) && OnPath(t, p)
    ensures Mirrors(At(t, p), h)
  {
    if p != [] {
      MirrorsAt(t.kids[p[0]], p[1..], h);
    }
  }

  lemma {:induction false} MirrorsFrame(t: Tree, h: Heap, h': Heap)
    requires Mirrors(t, h) && Agree(Nodes(t), h, h')
    ensures Mirrors(t, h')
  {
    if t.Internal? {
      KidNodes(t);
      forall i | 0 <= i < |t.kids| ensures Mirrors(t.kids[i], h') { MirrorsFrame(t.kids[i], h, h'); }
    }
  }

  /** `h'` agrees with `h` on the nodes `ns`. */
  ghost predicate Agree(ns: set<Node>, h: Heap, h': Heap) {
    forall n :: n in ns && n in h ==> n in h' && h'[n] == h[n]
  }

  lemma MirrorsKid(t: Tree, i: nat, c: Tree, h: Heap, h': Heap)
    requires t.Internal? && i < |t.kids| && Distinct(t) && c.node == t.kids[i].node
    requires Mirrors(t, h) && Mirrors(c, h') && Agree(Nodes(t) - Nodes(t.kids[i]), h, h')
    ensures Mirrors(Internal(t.node, t.keys, t.kids[i := c]), h')
  {
    KidNodes(t);
    forall j | 0 <= j < |t.kids| && j != i ensures Mirrors(t.kids[j], h') {
      assert NodeSets(t.kids)[j] !! NodeSets(t.kids)[i];
      MirrorsFrame(t.kids[j], h, h');
    }
    assert t.node in Nodes(t) - Nodes(t.kids[i]);
  }

  /** Changing the heap only below the node at `p`. */
  lemma {:induction false} MirrorsReplace(t: Tree, p: seq<nat>, s: Tree, h: Heap, h': Heap)
    requires OnPath(t, p) && Distinct(t)
    requires Mirrors(t, h) && Mirrors(s, h') && s.node == At(t, p).node
    requires Agree(Nodes(t) - Nodes(At(t, p)), h, h')
    ensures Mirrors(Replace(t, p, s), h')
  {
    if p != [] {
      var i, c := p[0], t.kids[p[0]];
      assert Nodes(c) <= Nodes(t) by { KidNodes(t); }
      assert Nodes(At(c, p[1..])) <= Nodes(c) by { NodesAt(c, p[1..]); }
      MirrorsReplace(c, p[1..], s, h, h');
      MirrorsKid(t, i, Replace(c, p[1..], s), h, h');
    }
  }

  lemma {:induction false} NodesInHeap(t: Tree, h: Heap)
    requires Mirrors(t, h)
    ensures Nodes(t) <= h.Keys
  {
    if t.Internal? {
      forall c | c in t.kids ensures Nodes(c) <= h.Keys { NodesInHeap(c, h); }
    }
  }

  // ----- the three kinds of state an insertion goes through

  /** Every invariant of the tree at once; `m` is the map it stands for. */
  ghost predicate Good(t: Tree, h: Heap, height: nat, dense: bool, m: map<Key, Value>) {
    && Mirrors(t, h) && Distinct(t) && Formed(t) && Ok(t, height, dense, true)
    && Reads(Flat(t), m) && Chained(Leaves(t), h)
  }

  ghost predicate Full(s: Tree, h: nat, dense: bool) {
    |s.keys| == ORDER &&
    match s
    case Leaf(_, _, vs) => h == 0 && |vs| == ORDER
    case Internal(_, _, cs) => h > 0 && |cs| == ORDER + 1 &&
                               forall i :: 0 <= i < |cs| ==> Ok(cs[i], h - 1, dense, false)
  }

  /** As `Good`, except that the node at `p` has one key too many. */
  ghost predicate Overfull(t: Tree, h: Heap, p: seq<nat>, height: nat, dense: bool, m: map<Key, Value>) {
    && OnPath(t, p) && |p| <= height
    && Mirrors(t, h) && Distinct(t) && Formed(t)
    && OkElsewhere(t, p, height, dense, true) && Full(At(t, p), height - |p|, dense)
    && Reads(Flat(t), m) && Chained(Leaves(t), h)
  }

  ghost function PendingFlat(t: Tree, p: seq<nat>, k: Key, r: Tree): seq<Entry>
    requires OnPath(t, p) && Formed(t) && Formed(At(t, p)) && Formed(r)
  {
    Pre(t, p) + (Flat(At(t, p)) + [Sep(k)] + Flat(r)) + Post(t, p)
  }

  ghost function PendingLeaves(t: Tree, p: seq<nat>, r: Tree): seq<Node>
    requires OnPath(t, p)
  {
    LeavesBefore(t, p) + (Leaves(At(t, p)) + Leaves(r)) + LeavesAfter(t, p)
  }

  /** As `Good`, except that `r`, the right half of the node at `p`, is not yet in the tree. */
  ghost predicate Pending(t: Tree, h: Heap, p: seq<nat>, k: Key, r: Tree, height: nat, dense: bool,
                          m: map<Key, Value>) {
    && OnPath(t, p) && |p| <= height
    && Mirrors(t, h) && Mirrors(r, h) && Distinct(t) && Distinct(r) && Nodes(t) !! Nodes(r)
    && Formed(t) && Formed(At(t, p)) && Formed(r)
    && Ok(t, height, dense, true) && Ok(At(t, p), height - |p|, dense, false) && Ok(r, height - |p|, dense, false)
    && Reads(PendingFlat(t, p, k, r), m)
    && Chained(PendingLeaves(t, p, r), h)
  }

  // ----- leaves and their chain

  lemma {:induction false} LeavesInNodes(t: Tree)
    ensures forall n :: n in Leaves(t) ==> n in Nodes(t)
    decreases t, 0
  {
    if t.Internal? {
      LeavesOfInNodes(t.kids, Nodes(t) - {t.node} + {t.node});
    }
  }

  lemma {:induction false} LeavesOfInNodes(cs: seq<Tree>, ns: set<Node>)
    requires forall c :: c in cs ==> Nodes(c) <= ns
    ensures Within(LeavesOf(cs), ns)
    decreases cs, 1
  {
    if cs != [] {
      LeavesInNodes(cs[0]);
      LeavesOfInNodes(cs[1..], ns);
    }
  }

  ghost predicate Within(ls: seq<Node>, ns: set<Node>) {
    forall n :: n in ls ==> n in ns
  }

  /** The leaves left and right of one child are nodes outside it. */
  lemma OtherLeaves(t: Tree, i: nat)
    requires t.Internal? && i < |t.kids| && Distinct(t)
    ensures Within(LeavesOf(t.kids[..i]), Nodes(t) - Nodes(t.kids[i]))
    ensures Within(LeavesOf(t.kids[i + 1..]), Nodes(t) - Nodes(t.kids[i]))
  {
    hide Nodes, Distinct;
    OtherKids(t, i);
    LeavesOfInNodes(t.kids[..i], Nodes(t) - Nodes(t.kids[i]));
    LeavesOfInNodes(t.kids[i + 1..], Nodes(t) - Nodes(t.kids[i]));
  }

  lemma {:induction false} LeavesElsewhere(t: Tree, p: seq<nat>)
    requires OnPath(t, p) && Distinct(t)
    ensures Within(LeavesBefore(t, p), Nodes(t) - Nodes(At(t, p)))
    ensures Within(LeavesAfter(t, p), Nodes(t) - Nodes(At(t, p)))
  {
    hide Nodes, Distinct;
    if p != [] {
      var i, c := p[0], t.kids[p[0]];
      assert Distinct(c) && Nodes(c) <= Nodes(t) by { DistinctParts(t); KidNodes(t); }
      NodesAt(c, p[1..]);
      LeavesElsewhere(c, p[1..]);
      OtherLeaves(t, i);
    }
  }

  lemma OtherKids(t: Tree, i: nat)
    requires t.Internal? && i < |t.kids| && Distinct(t)
    ensures forall j :: 0 <= j < |t.kids| && j != i ==> Nodes(t.kids[j]) <= Nodes(t) - Nodes(t.kids[i])
  {
    KidNodes(t);
    forall j | 0 <= j < |t.kids| && j != i ensures Nodes(t.kids[j]) <= Nodes(t) - Nodes(t.kids[i]) {
      assert NodeSets(t.kids)[j] !! NodeSets(t.kids)[i];
    }
  }

  lemma ChainFrame(ls: seq<Node>, h: Heap, h': Heap)
    requires Chained(ls, h) && forall n :: n in ls ==> n in h' && (n in h ==> h'[n].next == h[n].next)
    ensures Chained(ls, h')
  {
  }

  /** Linking a new leaf `n'` right after `n`. */
  lemma ChainSplit(a: seq<Node>, n: Node, n': Node, b: seq<Node>, h: Heap, h': Heap)
    requires Chained(a + [n] + b, h) && n !in a && n !in b
    requires forall x :: x in a || x in b ==> x in h && x in h' && h'[x] == h[x]
    requires n in h && n in h' && n' in h' && h'[n].next == n' && h'[n'].next == h[n].next
    ensures Chained(a + ([n] + [n']) + b, h')
  {
    var l, l' := a + [n] + b, a + ([n] + [n']) + b;
    assert l[|a|] == n;
    forall i | 0 <= i < |l'| ensures l'[i] in h' && h'[l'[i]].next == NextIn(l', i) {
      if i < |a| {
        assert l'[i] == l[i] == a[i] && NextIn(l', i) == NextIn(l, i);
        assert a[i] in a;
      } else if i == |a| {
        assert NextIn(l', i) == n';
      } else {
        assert NextIn(l', i) == NextIn(l, i - 1);
        if i > |a| + 1 {
          assert l'[i] == l[i - 1] == b[i - |a| - 2];
          assert b[i - |a| - 2] in b;
        }
      }
    }
  }

  // ----- halving an overfull node

  lemma HoldsWithSep(a: seq<Entry>, s: Entry, b: seq<Entry>, m: map<Key, Value>)
    requires Holds(a + b, m) && s.Sep?
    ensures Holds(a + [s] + b, m)
  {
    forall e ensures e in a + [s] + b <==> e == s || e in a + b {
    }
  }

  ghost function LowLeaf(s: Tree): Tree
    requires s.Leaf? && |s.keys| == |s.vals| == ORDER
  {
    Leaf(s.node, s.keys[..MID], s.vals[..MID])
  }

  ghost function HighLeaf(s: Tree, n: Node): Tree
    requires s.Leaf? && |s.keys| == |s.vals| == ORDER
  {
    Leaf(n, s.keys[MID..], s.vals[MID..])
  }

  /** Cutting a run of items in two and naming the cut by the first key of its upper part. */
  lemma CutReads(pre: seq<Entry>, a: seq<Entry>, b: seq<Entry>, post: seq<Entry>, m: map<Key, Value>)
    requires Reads(pre + (a + b) + post, m) && |a| > 0 && |b| > 0
    requires (forall e :: e in a ==> e.Item?) && (forall e :: e in b ==> e.Item?)
    ensures Reads(pre + (a + [Sep(b[0].k)] + b) + post, m)
  {
    var k := Sep(b[0].k);
    SortedSplitLeaf(pre, a, b, post);
    assert pre + (a + b) + post == (pre + a) + (b + post);
    HoldsWithSep(pre + a, k, b + post, m);
    assert pre + (a + [k] + b) + post == (pre + a) + [k] + (b + post);
  }

  lemma SplitLeafReads(t: Tree, p: seq<nat>, n: Node, m: map<Key, Value>)
    requires OnPath(t, p) && At(t, p).Leaf? && |At(t, p).keys| == |At(t, p).vals| == ORDER
    requires Formed(t) && Reads(Flat(t), m)
    ensures OnPath(Replace(t, p, LowLeaf(At(t, p))), p) && Formed(Replace(t, p, LowLeaf(At(t, p))))
    ensures At(Replace(t, p, LowLeaf(At(t, p))), p) == LowLeaf(At(t, p))
    ensures Reads(PendingFlat(Replace(t, p, LowLeaf(At(t, p))), p, At(t, p).keys[MID], HighLeaf(At(t, p), n)), m)
  {
    var s := At(t, p);
    var l, r := LowLeaf(s), HighLeaf(s, n);
    ReadAt(t, p);
    ReplaceAround(t, p, l);
    ReplaceReads(t, p, l);
    assert Flat(s) == Flat(l) + Flat(r);
    CutReads(Pre(t, p), Flat(l), Flat(r), Post(t, p), m);
  }

  lemma SplitLeafChain(t: Tree, p: seq<nat>, n: Node, h: Heap, h': Heap)
    requires OnPath(t, p) && Distinct(t) && At(t, p).Leaf? && |At(t, p).keys| == |At(t, p).vals| == ORDER
    requires Mirrors(t, h) && Chained(Leaves(t), h) && Agree(Nodes(t) - {At(t, p).node}, h, h')
    requires At(t, p).node in h && At(t, p).node in h' && n in h'
    requires h'[At(t, p).node].next == n && h'[n].next == h[At(t, p).node].next
    ensures OnPath(Replace(t, p, LowLeaf(At(t, p))), p)
    ensures Chained(PendingLeaves(Replace(t, p, LowLeaf(At(t, p))), p, HighLeaf(At(t, p), n)), h')
  {
    LeavesAt(t, p);
    ReplaceAround(t, p, LowLeaf(At(t, p)));
    LeavesElsewhere(t, p);
    NodesInHeap(t, h);
    ChainSplit(LeavesBefore(t, p), At(t, p).node, n, LeavesAfter(t, p), h, h');
  }

  /** An overfull leaf is cut in the middle; the upper half, in the new leaf `n`, is linked
      after it and waits to be attached. */
  lemma SplitLeafStep(t: Tree, p: seq<nat>, n: Node, h: Heap, h': Heap, height: nat, dense: bool, m: map<Key, Value>)
    requires Overfull(t, h, p, height, dense, m) && At(t, p).Leaf? && n !in Nodes(t)
    requires Agree(Nodes(t) - {At(t, p).node}, h, h')
    requires var s := At(t, p);
             && s.node in h && s.node in h' && n in h'
             && h'[s.node] == Data(true, s.keys[..MID], s.vals[..MID], h[s.node].children, n)
             && h'[n] == Data(true, s.keys[MID..], s.vals[MID..], [], h[s.node].next)
    ensures var s := At(t, p);
            Pending(Replace(t, p, LowLeaf(s)), h', p, s.keys[MID], HighLeaf(s, n), height, dense, m)
  {
    var s := At(t, p);
    var l := LowLeaf(s);
    SplitLeafReads(t, p, n, m);
    SplitLeafChain(t, p, n, h, h');
    NodesAt(t, p);
    ReplaceNodes(t, p, l);
    MirrorsReplace(t, p, l, h, h');
    OkReplace(t, p, l, height, dense, true);
  }

  lemma SplitInternalReads(t: Tree, p: seq<nat>, n: Node)
    requires OnPath(t, p) && At(t, p).Internal? && |At(t, p).keys| == ORDER && |At(t, p).kids| == ORDER + 1 && Formed(t)
    ensures OnPath(Replace(t, p, LeftHalf(At(t, p))), p) && Formed(Replace(t, p, LeftHalf(At(t, p))))
    ensures At(Replace(t, p, LeftHalf(At(t, p))), p) == LeftHalf(At(t, p))
    ensures Formed(LeftHalf(At(t, p))) && Formed(RightHalf(At(t, p), n))
    ensures PendingFlat(Replace(t, p, LeftHalf(At(t, p))), p, At(t, p).keys[MID], RightHalf(At(t, p), n)) == Flat(t)
    ensures PendingLeaves(Replace(t, p, LeftHalf(At(t, p))), p, RightHalf(At(t, p), n)) == Leaves(t)
  {
    var s := At(t, p);
    ReadAt(t, p);
    HalvesRead(s, n);
    ReplaceAround(t, p, LeftHalf(s));
    ReplaceReads(t, p, LeftHalf(s));
    LeavesAt(t, p);
  }

  lemma KidsFrame(s: Tree, h: Heap, h': Heap)
    requires s.Internal? && Distinct(s) && Mirrors(s, h) && Agree(Nodes(s) - {s.node}, h, h')
    ensures forall j :: 0 <= j < |s.kids| ==> Mirrors(s.kids[j], h')
  {
    KidNodes(s);
    forall j | 0 <= j < |s.kids| ensures Mirrors(s.kids[j], h') {
      MirrorsFrame(s.kids[j], h, h');
    }
  }

  lemma MirrorsHalves(s: Tree, n: Node, h: Heap, h': Heap)
    requires s.Internal? && |s.keys| == ORDER && |s.kids| == ORDER + 1 && Distinct(s) && n !in Nodes(s) && Mirrors(s, h)
    requires Agree(Nodes(s) - {s.node}, h, h')
    requires s.node in h'
    requires h'[s.node] == Data(false, s.keys[..MID], h[s.node].values, h[s.node].children[..MID + 1], h[s.node].next)
    requires n in h' && h'[n] == Data(false, s.keys[MID + 1..], [], h[s.node].children[MID + 1..], null)
    ensures Mirrors(LeftHalf(s), h') && Mirrors(RightHalf(s, n), h')
  {
    hide Nodes, Distinct;
    KidsFrame(s, h, h');
  }

  lemma SplitInternalFrame(t: Tree, p: seq<nat>, n: Node, h: Heap, h': Heap)
    requires OnPath(t, p) && Distinct(t) && Mirrors(t, h) && n !in Nodes(t)
    requires At(t, p).Internal? && |At(t, p).keys| == ORDER && |At(t, p).kids| == ORDER + 1
    requires Mirrors(LeftHalf(At(t, p)), h') && Agree(Nodes(t) - {At(t, p).node}, h, h')
    ensures Distinct(Replace(t, p, LeftHalf(At(t, p)))) && Distinct(RightHalf(At(t, p), n))
    ensures Nodes(Replace(t, p, LeftHalf(At(t, p)))) !! Nodes(RightHalf(At(t, p), n))
    ensures Mirrors(Replace(t, p, LeftHalf(At(t, p))), h')
  {
    var s := At(t, p);
    NodesAt(t, p);
    HalvesDistinct(s, n);
    HalvesNodes(s, n);
    ReplaceNodes(t, p, LeftHalf(s));
    MirrorsReplace(t, p, LeftHalf(s), h, h');
  }

  /** Changing an internal node leaves the chain of leaves alone. */
  lemma LeafFrame(t: Tree, h: Heap, h': Heap, x: Node)
    requires Mirrors(t, h) && Chained(Leaves(t), h) && x in h && !h[x].leaf
    requires Agree(Nodes(t) - {x}, h, h')
    ensures Chained(Leaves(t), h')
  {
    LeavesInNodes(t);
    LeavesAreLeaves(t, h);
  }

  lemma {:induction false} LeavesAreLeaves(t: Tree, h: Heap)
    requires Mirrors(t, h)
    ensures forall n :: n in Leaves(t) ==> n in h && h[n].leaf
    decreases t, 0
  {
    if t.Internal? {
      LeavesOfAreLeaves(t.kids, h);
    }
  }

  lemma {:induction false} LeavesOfAreLeaves(cs: seq<Tree>, h: Heap)
    requires forall i :: 0 <= i < |cs| ==> Mirrors(cs[i], h)
    ensures forall n :: n in LeavesOf(cs) ==> n in h && h[n].leaf
    decreases cs, 1
  {
    if cs != [] {
      LeavesAreLeaves(cs[0], h);
      LeavesOfAreLeaves(cs[1..], h);
    }
  }

  lemma InternalAt(t: Tree, p: seq<nat>, h: Heap)
    requires Mirrors(t, h) && OnPath(t, p) && At(t, p).Internal?
    ensures Mirrors(At(t, p), h) && At(t, p).node in h && !h[At(t, p).node].leaf
  {
    MirrorsAt(t, p, h);
  }

  lemma HalvesOk(s: Tree, n: Node, h: nat, dense: bool)
    requires s.Internal? && Full(s, h, dense)
    ensures forall root :: Ok(LeftHalf(s), h, dense, root)
    ensures Ok(RightHalf(s, n), h, dense, false)
  {
  }

  /** An overfull internal node is cut around its middle key, which moves up: nothing is read differently. */
  lemma SplitInternalStep(t: Tree, p: seq<nat>, n: Node, h: Heap, h': Heap, height: nat, dense: bool,
                          m: map<Key, Value>)
    requires Overfull(t, h, p, height, dense, m) && At(t, p).Internal? && n !in Nodes(t)
    requires Agree(Nodes(t) - {At(t, p).node}, h, h')
    requires At(t, p).node in h && |h[At(t, p).node].children| == ORDER + 1
    requires At(t, p).node in h' && n in h'
    requires h'[At(t, p).node] ==
               Data(false, At(t, p).keys[..MID], h[At(t, p).node].values, h[At(t, p).node].children[..MID + 1],
                    h[At(t, p).node].next)
    requires h'[n] == Data(false, At(t, p).keys[MID + 1..], [], h[At(t, p).node].children[MID + 1..], null)
    ensures Pending(Replace(t, p, LeftHalf(At(t, p))), h', p, At(t, p).keys[MID], RightHalf(At(t, p), n),
                    height, dense, m)
  {
    hide Mirrors, Distinct, Formed, Ok, Flat, Leaves, Nodes, Replace, Sorted, Holds, Chained, Reads;
    var s := At(t, p);
    var l, r := LeftHalf(s), RightHalf(s, n);
    assert Nodes(s) <= Nodes(t) && Distinct(s) by { NodesAt(t, p); }
    InternalAt(t, p, h);
    MirrorsHalves(s, n, h, h');
    SplitInternalFrame(t, p, n, h, h');
    SplitInternalReads(t, p, n);
    HalvesOk(s, n, height - |p|, dense);
    OkReplace(t, p, l, height, dense, true);
    LeafFrame(t, h, h', s.node);
  }

  // ----- attaching the waiting half

  lemma AttachStepReads(t: Tree, q: seq<nat>, i: nat, k: Key, r: Tree)
    requires OnPath(t, q) && At(t, q).Internal? && i < |At(t, q).kids| == |At(t, q).keys| + 1
    requires Formed(t) && Formed(r)
    ensures OnPath(t, q + [i]) && Formed(At(t, q + [i]))
    ensures Formed(Attach(At(t, q), i, k, r)) && Formed(Replace(t, q, Attach(At(t, q), i, k, r)))
    ensures Flat(Replace(t, q, Attach(At(t, q), i, k, r))) == PendingFlat(t, q + [i], k, r)
    ensures Leaves(Replace(t, q, Attach(At(t, q), i, k, r))) == PendingLeaves(t, q + [i], r)
  {
    hide Formed, Flat, Leaves, Replace, Attach;
    var s := At(t, q);
    ReadAt(t, q);
    ReadAt(t, q + [i]) by { PathStep(t, q, i); }
    PathStep(t, q, i);
    ReadStep(t, q, i);
    AttachReads(s, i, k, r);
    AttachLeaves(s, i, k, r);
    ReplaceFlat(t, q, Attach(s, i, k, r));
    Regroup(Pre(t, q), Before(s.keys, s.kids, i), Flat(s.kids[i]) + [Sep(k)] + Flat(r), After(s.keys, s.kids, i),
            Post(t, q));
    Regroup(LeavesBefore(t, q), LeavesOf(s.kids[..i]), Leaves(s.kids[i]) + Leaves(r), LeavesOf(s.kids[i + 1..]),
            LeavesAfter(t, q));
  }

  lemma AttachedKids(s: Tree, i: nat, k: Key, r: Tree)
    requires s.Internal? && i < |s.kids| == |s.keys| + 1
    ensures |Attach(s, i, k, r).kids| == |s.kids| + 1
    ensures forall j {:trigger Attach(s, i, k, r).kids[j]} :: 0 <= j <= |s.kids| ==>
              Attach(s, i, k, r).kids[j] == if j <= i then s.kids[j] else if j == i + 1 then r else s.kids[j - 1]
  {
  }

  lemma MirrorsAttach(s: Tree, i: nat, k: Key, r: Tree, h: Heap, h': Heap)
    requires s.Internal? && i < |s.kids| && Distinct(s) && Mirrors(s, h) && Mirrors(r, h)
    requires s.node !in Nodes(r) && Agree(Nodes(s) + Nodes(r) - {s.node}, h, h') && s.node in h'
    requires !h'[s.node].leaf && h'[s.node].keys == s.keys[..i] + [k] + s.keys[i..]
    requires h'[s.node].children == h[s.node].children[..i + 1] + [r.node] + h[s.node].children[i + 1..]
    ensures Mirrors(Attach(s, i, k, r), h')
  {
    hide Nodes, Distinct;
    KidsFrame(s, h, h');
    MirrorsFrame(r, h, h');
    var cs := Attach(s, i, k, r).kids;
    AttachedKids(s, i, k, r);
    forall j | 0 <= j < |cs| ensures h'[s.node].children[j] == cs[j].node && Mirrors(cs[j], h') { }
  }

  lemma AttachFrame(t: Tree, q: seq<nat>, i: nat, k: Key, r: Tree, h: Heap, h': Heap)
    requires OnPath(t, q) && At(t, q).Internal? && i < |At(t, q).kids| == |At(t, q).keys| + 1
    requires Mirrors(t, h) && Distinct(t) && Distinct(r) && Nodes(t) !! Nodes(r)
    requires Mirrors(Attach(At(t, q), i, k, r), h') && Agree(Nodes(t) - {At(t, q).node}, h, h')
    ensures Distinct(Replace(t, q, Attach(At(t, q), i, k, r)))
    ensures Nodes(Replace(t, q, Attach(At(t, q), i, k, r))) == Nodes(t) + Nodes(r)
    ensures Mirrors(Replace(t, q, Attach(At(t, q), i, k, r)), h')
  {
    hide Distinct, Nodes, Mirrors, Replace;
    var s := At(t, q);
    NodesAt(t, q);
    AttachDistinct(s, i, k, r);
    AttachNodes(s, i, k, r);
    ReplaceNodes(t, q, Attach(s, i, k, r));
    MirrorsReplace(t, q, Attach(s, i, k, r), h, h');
  }

  lemma AttachOk(s: Tree, i: nat, k: Key, r: Tree, h: nat, dense: bool, root: bool)
    requires s.Internal? && Ok(s, h, dense, root) && i < |s.kids| && Ok(r, h - 1, dense, false)
    ensures if |s.keys| + 1 < ORDER then Ok(Attach(s, i, k, r), h, dense, root) else Full(Attach(s, i, k, r), h, dense)
  {
    var cs := Attach(s, i, k, r).kids;
    forall j | 0 <= j < |cs| ensures Ok(cs[j], h - 1, dense, false) {
      assert cs[j] == if j <= i then s.kids[j] else if j == i + 1 then r else s.kids[j - 1];
    }
  }

  /** An internal node, and every child of it but `r`, changes no leaf. */
  lemma AttachChain(t: Tree, p: seq<nat>, r: Tree, h: Heap, h': Heap, x: Node)
    requires OnPath(t, p) && Mirrors(t, h) && Mirrors(r, h) && Chained(PendingLeaves(t, p, r), h)
    requires x in h && !h[x].leaf && Agree(Nodes(t) + Nodes(r) - {x}, h, h')
    ensures Chained(PendingLeaves(t, p, r), h')
  {
    hide Mirrors, Nodes, Leaves;
    LeavesAt(t, p);
    LeavesInNodes(t);
    LeavesInNodes(r);
    LeavesAreLeaves(t, h);
    LeavesAreLeaves(r, h);
    forall n | n in PendingLeaves(t, p, r) ensures n in h && n in h' && h'[n].next == h[n].next {
      assert n in Leaves(t) || n in Leaves(r);
    }
    ChainFrame(PendingLeaves(t, p, r), h, h');
  }

  /** The parent takes the waiting half, right after the node it was cut from. */
  lemma AttachStep(t: Tree, q: seq<nat>, i: nat, k: Key, r: Tree, h: Heap, h': Heap, height: nat, dense: bool,
                   m: map<Key, Value>)
    requires OnPath(t, q) && At(t, q).Internal? && i < |At(t, q).kids| == |At(t, q).keys| + 1
    requires Pending(t, h, q + [i], k, r, height, dense, m)
    requires At(t, q).node in h && i < |h[At(t, q).node].children|
    requires At(t, q).node in h' && Agree(Nodes(t) + Nodes(r) - {At(t, q).node}, h, h')
    requires !h'[At(t, q).node].leaf && h'[At(t, q).node].keys == At(t, q).keys[..i] + [k] + At(t, q).keys[i..]
    requires h'[At(t, q).node].children ==
             h[At(t, q).node].children[..i + 1] + [r.node] + h[At(t, q).node].children[i + 1..]
    ensures var t' := Replace(t, q, Attach(At(t, q), i, k, r));
            && Nodes(t') == Nodes(t) + Nodes(r)
            && if |At(t, q).keys| + 1 < ORDER then Good(t', h', height, dense, m)
               else Overfull(t', h', q, height, dense, m)
  {
    hide Mirrors, Distinct, Formed, Ok, Flat, Leaves, Nodes, Replace, Attach, Full, Chained, Reads, OnPath, At,
         OkElsewhere, PendingFlat, PendingLeaves;
    var s := At(t, q);
    NodesAt(t, q);
    InternalAt(t, q, h);
    MirrorsAttach(s, i, k, r, h, h');
    AttachFrame(t, q, i, k, r, h, h');
    AttachStepReads(t, q, i, k, r);
    AttachChain(t, q + [i], r, h, h', s.node);
    OkAt(t, q, height, dense, true);
    AttachOk(s, i, k, r, height - |q|, dense, q == []);
    OkReplace(t, q, Attach(s, i, k, r), height, dense, true);
    ReplaceAround(t, q, Attach(s, i, k, r));
  }

  lemma RootReads(t: Tree, n: Node, k: Key, r: Tree)
    requires Formed(t) && Formed(r)
    ensures Formed(Internal(n, [k], [t, r]))
    ensures Flat(Internal(n, [k], [t, r])) == PendingFlat(t, [], k, r)
    ensures Leaves(Internal(n, [k], [t, r])) == PendingLeaves(t, [], r)
  {
    var ks, cs := [k], [t, r];
    assert ks[1..] == [] && cs[1..] == [r];
    var f := Flat(t) + [Sep(k)] + Flat(r);
    assert FlatKids(ks, cs) == f && [] + f + [] == f;
    assert LeavesOf([r]) == Leaves(r) by { assert [r][1..] == []; }
    assert LeavesOf(cs) == Leaves(t) + Leaves(r);
  }

  lemma RootFrame(t: Tree, n: Node, k: Key, r: Tree, h: Heap, h': Heap)
    requires Mirrors(t, h) && Mirrors(r, h) && Distinct(t) && Distinct(r) && Nodes(t) !! Nodes(r)
    requires n !in Nodes(t) && n !in Nodes(r) && n in h' && Agree(Nodes(t) + Nodes(r), h, h')
    requires !h'[n].leaf && h'[n].keys == [k] && h'[n].children == [t.node, r.node]
    ensures Mirrors(Internal(n, [k], [t, r]), h') && Distinct(Internal(n, [k], [t, r]))
    ensures Nodes(Internal(n, [k], [t, r])) == Nodes(t) + Nodes(r) + {n}
  {
    MirrorsFrame(t, h, h');
    MirrorsFrame(r, h, h');
    var cs := [t, r];
    assert t in cs && r in cs && forall c :: c in cs ==> c == t || c == r;
    assert cs[0] == t && cs[1] == r;
  }

  lemma RootChain(t: Tree, r: Tree, h: Heap, h': Heap)
    requires Mirrors(t, h) && Mirrors(r, h) && Chained(PendingLeaves(t, [], r), h)
    requires Agree(Nodes(t) + Nodes(r), h, h')
    ensures Chained(PendingLeaves(t, [], r), h')
  {
    LeavesInNodes(t);
    LeavesInNodes(r);
    LeavesAreLeaves(t, h);
    LeavesAreLeaves(r, h);
  }

  lemma RootOk(t: Tree, n: Node, k: Key, r: Tree, h: nat, dense: bool)
    requires Ok(t, h, dense, false) && Ok(r, h, dense, false)
    ensures Ok(Internal(n, [k], [t, r]), h + 1, dense, true)
  {
    var cs := [t, r];
    assert cs[0] == t && cs[1] == r;
  }

  /** When the root was cut, a new root holds its two halves. */
  lemma RootStep(t: Tree, n: Node, k: Key, r: Tree, h: Heap, h': Heap, height: nat, dense: bool, m: map<Key, Value>)
    requires Pending(t, h, [], k, r, height, dense, m)
    requires n !in Nodes(t) && n !in Nodes(r) && n in h' && Agree(Nodes(t) + Nodes(r), h, h')
    requires !h'[n].leaf && h'[n].keys == [k] && h'[n].children == [t.node, r.node]
    ensures Good(Internal(n, [k], [t, r]), h', height + 1, dense, m)
    ensures Nodes(Internal(n, [k], [t, r])) == Nodes(t) + Nodes(r) + {n}
  {
    hide Mirrors, Distinct, Formed, Ok, Flat, Leaves, Nodes, Chained, Reads;
    RootReads(t, n, k, r);
    RootFrame(t, n, k, r, h, h');
    RootChain(t, r, h, h');
    RootOk(t, n, k, r, height, dense);
  }
}
