/** The B+ tree store: nodes updated in place, splits that climb through `FindParent`,
    and scans along the leaf chain. `contents` is the map the tree stands for. */
module BPlusTree {
  import opened Bytes
  import opened Lookups
  import opened BPlusShape
  import opened BPlusOrder
  import opened BPlusHeap
  import opened BPlusLeaf
  import opened BPlusScan

  /** Past `key`: above it, or also at it when `orEqual`. */
  predicate Past(k: Key, key: Key, orEqual: bool) {
    if orEqual then AtMost(key, k) else Less(key, k)
  }

  /** The first index whose key is past `key`, by bisection. */
  method SearchKeys(ks: seq<Key>, key: Key, orEqual: bool) returns (idx: nat)
    requires Ascending(ks)
    ensures idx <= |ks|
    ensures forall j :: 0 <= j < idx ==> !Past(ks[j], key, orEqual)
    ensures forall j :: idx <= j < |ks| ==> Past(ks[j], key, orEqual)
  {
    var i, j := 0, |ks|;
    while i < j
      invariant 0 <= i <= j <= |ks|
      invariant forall l :: 0 <= l < i ==> !Past(ks[l], key, orEqual)
      invariant forall l :: j <= l < |ks| ==> Past(ks[l], key, orEqual)
    {
      var h := (i + j) / 2;
      LessIsStrictTotalOrder();
      if Past(ks[h], key, orEqual) {
        assert forall l :: h < l < |ks| ==> Less(ks[h], ks[l]);
        j := h;
      } else {
        assert forall l :: 0 <= l < h ==> Less(ks[l], ks[h]);
        i := h + 1;
      }
    }
    idx := i;
  }

  /** One step down: into the child right of every separator that is not past the key. */
  lemma Descend(t: Tree, p: seq<nat>, i: nat, key: Key, m: map<Key, Value>)
    requires Formed(t) && Reads(Flat(t), m) && OnPath(t, p) && At(t, p).Internal?
    requires i < |At(t, p).kids| == |At(t, p).keys| + 1 && Brackets(Pre(t, p), key, Post(t, p))
    requires i > 0 ==> AtMost(At(t, p).keys[i - 1], key)
    requires i < |At(t, p).keys| ==> Less(key, At(t, p).keys[i])
    ensures OnPath(t, p + [i]) && At(t, p + [i]) == At(t, p).kids[i]
    ensures Brackets(Pre(t, p + [i]), key, Post(t, p + [i]))
  {
    hide Pre, Post, Brackets, Sorted, OnPath, At;
    var s := At(t, p);
    ReadAt(t, p);
    ReadStep(t, p, i);
    PathStep(t, p, i);
    BracketsStep(Pre(t, p), Post(t, p), s.keys, s.kids, i, key);
  }

  lemma KeysAt(t: Tree, p: seq<nat>, h: Heap, height: nat, dense: bool, m: map<Key, Value>)
    requires Good(t, h, height, dense, m) && OnPath(t, p)
    ensures Mirrors(At(t, p), h) && Ascending(At(t, p).keys)
    ensures At(t, p).node in Nodes(t)
  {
    hide Mirrors, Sorted, Flat, Nodes;
    MirrorsAt(t, p, h);
    NodesAt(t, p);
    LeafAscends(t, p, m);
  }

  lemma OverfullAt(t: Tree, h: Heap, p: seq<nat>, height: nat, dense: bool, m: map<Key, Value>)
    requires Overfull(t, h, p, height, dense, m)
    ensures OnPath(t, p)
    ensures var s := At(t, p);
            && s.node in Nodes(t) && s.node in h && Mirrors(s, h)
            && |s.keys| == ORDER && h[s.node].leaf == s.Leaf? && h[s.node].keys == s.keys
            && (s.Leaf? ==> |s.vals| == ORDER && h[s.node].values == s.vals)
            && (s.Internal? ==> |s.kids| == ORDER + 1 && |h[s.node].children| == ORDER + 1)
  {
    MirrorsAt(t, p, h);
    NodesAt(t, p);
  }

  lemma LeafNodes(t: Tree, p: seq<nat>, s: Tree, h: Heap, height: nat, dense: bool, m: map<Key, Value>)
    requires Overfull(t, h, p, height, dense, m) && At(t, p).Leaf? && s.Leaf? && s.node == At(t, p).node
    ensures Nodes(Replace(t, p, s)) == Nodes(t) && Replace(t, p, s).node == t.node
  {
    NodesAt(t, p);
    ReplaceNodes(t, p, s);
  }

  lemma StrictlyPast(ks: seq<Key>, i: nat, key: Key)
    requires i <= |ks| && Ascending(ks) && (i < |ks| ==> ks[i] != key)
    requires forall j :: 0 <= j < i ==> !Past(ks[j], key, true)
    requires forall j :: i <= j < |ks| ==> Past(ks[j], key, true)
    ensures forall j :: 0 <= j < i ==> Less(ks[j], key)
    ensures forall j :: i <= j < |ks| ==> Less(key, ks[j])
  {
    LessIsStrictTotalOrder();
  }

  lemma PathIsRoot(t: Tree, h: Heap, p: seq<nat>, k: Key, r: Tree, height: nat, dense: bool, m: map<Key, Value>)
    requires Pending(t, h, p, k, r, height, dense, m)
    ensures OnPath(t, p) && Distinct(t) && Mirrors(t, h) && Mirrors(r, h)
    ensures At(t, p).node == t.node <==> p == []
  {
    if At(t, p).node == t.node { PathUnique(t, p, []); }
  }

  lemma SnapAt(ns: set<Node>, n: Node)
    requires n in ns
    ensures n in Snap(ns) && Snap(ns)[n] == Data(n.leaf, n.keys, n.values, n.children, n.next)
  {
  }

  /** Assigns new keys and values to a leaf; `ns` is any set of nodes around it. */
  method WriteLeaf(n: Node, keys: seq<Key>, values: seq<Value>, ghost ns: set<Node>)
    requires n in ns && n.leaf
    modifies n
    ensures n.keys == keys && n.values == values
    ensures Snap(ns) == old(Snap(ns)[n := Snap(ns)[n].(keys := keys, values := values)])
    ensures Snap(ns)[n].leaf
  {
    n.keys, n.values := keys, values;
  }

  /** The upper half of a full leaf moves to a new leaf linked after it. */
  method CutLeaf(leaf: Node, ghost ns: set<Node>) returns (newLeaf: Node)
    requires leaf in ns && leaf.leaf && |leaf.keys| == |leaf.values| == ORDER
    modifies leaf
    ensures newLeaf !in ns && fresh(newLeaf) && newLeaf.keys == old(leaf.keys[MID..]) && newLeaf.leaf
    ensures Snap(ns + {newLeaf}) ==
            old(Snap(ns)[leaf :=
              Snap(ns)[leaf].(keys := leaf.keys[..MID], values := leaf.values[..MID], next := newLeaf)])
               [newLeaf := Data(true, old(leaf.keys[MID..]), old(leaf.values[MID..]), [], old(Snap(ns)[leaf].next))]
  {
    newLeaf := new Node(true);
    newLeaf.keys, newLeaf.values := leaf.keys[MID..], leaf.values[MID..];
    leaf.keys, leaf.values := leaf.keys[..MID], leaf.values[..MID];
    newLeaf.next := leaf.next;
    leaf.next := newLeaf;
  }

  /** Assigns new keys and children to an internal node. */
  method WriteInternal(n: Node, keys: seq<Key>, children: seq<Node>, ghost ns: set<Node>)
    requires n in ns && !n.leaf
    modifies n
    ensures n.keys == keys && n.children == children
    ensures Snap(ns) == old(Snap(ns)[n := Snap(ns)[n].(keys := keys, children := children)])
    ensures !Snap(ns)[n].leaf
  {
    n.keys, n.children := keys, children;
  }

  /** The keys above the middle one move, with their children, to a new internal node. */
  method CutInternal(n: Node, ghost ns: set<Node>) returns (newNode: Node)
    requires n in ns && !n.leaf && |n.keys| == ORDER && |n.children| == ORDER + 1
    modifies n
    ensures newNode !in ns && fresh(newNode)
    ensures Snap(ns + {newNode}) ==
            old(Snap(ns)[n := Snap(ns)[n].(keys := n.keys[..MID], children := n.children[..MID + 1])])
               [newNode := Data(false, old(n.keys[MID + 1..]), [], old(n.children[MID + 1..]), null)]
    ensures old(Snap(ns)[n].children == n.children && !Snap(ns)[n].leaf)
  {
    hide Snap;
    SnapAt(ns, n);
    newNode := NewInternal(n.keys[MID + 1..], n.children[MID + 1..], ns);
    WriteInternal(n, n.keys[..MID], n.children[..MID + 1], ns + {newNode});
  }

  method NewInternal(keys: seq<Key>, children: seq<Node>, ghost ns: set<Node>) returns (n: Node)
    ensures n !in ns && fresh(n) && !n.leaf
    ensures Snap(ns + {n}) == old(Snap(ns))[n := Data(false, keys, [], children, null)]
  {
    n := new Node(false);
    n.keys, n.children := keys, children;
  }

  /** `FindParent` finds the one parent. */
  lemma ParentFound(t: Tree, h: Heap, p: seq<nat>, k: Key, r: Tree, height: nat, dense: bool, m: map<Key, Value>,
                    q: seq<nat>, i: nat)
    requires Pending(t, h, p, k, r, height, dense, m)
    requires OnPath(t, q) && At(t, q).Internal? && i < |At(t, q).kids| && At(t, q).kids[i].node == At(t, p).node
    ensures p == q + [i]
    ensures |At(t, q).kids| == |At(t, q).keys| + 1 && |At(t, q).keys| < ORDER
    ensures At(t, q).node in Nodes(t) && At(t, q).node in h && h[At(t, q).node].keys == At(t, q).keys
    ensures |h[At(t, q).node].children| == |At(t, q).kids| && !h[At(t, q).node].leaf
  {
    hide Reads, Chained;
    PathStep(t, q, i);
    PathUnique(t, p, q + [i]);
    MirrorsAt(t, q, h);
    NodesAt(t, q);
    OkAt(t, q, height, dense, true);
  }

  lemma HalfNodes(t: Tree, p: seq<nat>, n: Node, h: Heap, height: nat, dense: bool, m: map<Key, Value>)
    requires Overfull(t, h, p, height, dense, m) && At(t, p).Internal? && n !in Nodes(t) && |At(t, p).kids| == ORDER + 1
    ensures Nodes(Replace(t, p, LeftHalf(At(t, p)))) + Nodes(RightHalf(At(t, p), n)) == Nodes(t) + {n}
  {
    hide Reads, Chained, Mirrors, Nodes, Replace, Distinct;
    var s := At(t, p);
    NodesAt(t, p);
    HalvesDistinct(s, n);
    HalvesNodes(s, n);
    ReplaceNodes(t, p, LeftHalf(s));
  }

  /** The scan of one leaf: appends its wanted keys, and stops at the first key past all of them.
      `all` are the stored keys, those of the leaf from index `from` on. */
  method TakePrefix(ks: seq<Key>, prefix: Key, acc: seq<Key>, ghost all: seq<Key>, ghost from: nat)
    returns (out: seq<Key>, stop: bool)
    requires Ascending(all) && from + |ks| <= |all|
    requires forall i :: 0 <= i < |ks| ==> all[from + i] == ks[i]
    requires acc == Select(all[..from], WithPrefix(prefix))
    ensures out == Select(if stop then all else all[..from + |ks|], WithPrefix(prefix))
  {
    hide Less, Ascending, Select;
    ghost var keep := WithPrefix(prefix);
    out := acc;
    for i := 0 to |ks|
      invariant out == Select(all[..from + i], keep)
    {
      var k := ks[i];
      SelectStep(all, from + i, keep);
      if prefix <= k {
        out := out + [k];
      } else if Less(prefix, k) && !(prefix <= k) {
        PrefixPassed(prefix, k);
        SelectStop(all, from + i, keep);
        return out, true;
      }
    }
    return out, false;
  }

  /** The scan of one leaf: appends its wanted keys, and stops at the first key past all of them.
      `all` are the stored keys, those of the leaf from index `from` on. */
  method TakeRange(ks: seq<Key>, start: Key, end: Key, acc: seq<Key>, ghost all: seq<Key>, ghost from: nat)
    returns (out: seq<Key>, stop: bool)
    requires Ascending(all) && from + |ks| <= |all|
    requires forall i :: 0 <= i < |ks| ==> all[from + i] == ks[i]
    requires acc == Select(all[..from], InRange(start, end))
    ensures out == Select(if stop then all else all[..from + |ks|], InRange(start, end))
  {
    hide Less, Ascending, Select;
    ghost var keep := InRange(start, end);
    out := acc;
    for i := 0 to |ks|
      invariant out == Select(all[..from + i], keep)
    {
      var k := ks[i];
      SelectStep(all, from + i, keep);
      if AtMost(start, k) && AtMost(k, end) {
        out := out + [k];
      } else if Less(end, k) {
        EndPassed(end, k);
        SelectStop(all, from + i, keep);
        return out, true;
      }
    }
    return out, false;
  }

  class BPTreeStore {
    var root: Node
    ghost var shape: Tree
    ghost var height: nat
    ghost var dense: bool
    ghost var contents: map<Key, Value>

    /** `shape` is what the heap below `root` looks like. It is sorted and balanced, no node has two
        parents or more than 31 keys, the leaves are chained in order, and it stands for `contents`.
        While `dense`, that is, until the first deletion, nodes below the root are at least half full. */
    ghost predicate Valid()
      reads this, Nodes(shape)
    {
      root == shape.node && Good(shape, Snap(Nodes(shape)), height, dense, contents)
    }

    constructor ()
      ensures Valid() && contents == map[] && dense && height == 0 && fresh(Nodes(shape))
    {
      var leaf := new Node(true);
      root := leaf;
      shape := Leaf(leaf, [], []);
      height, dense, contents := 0, true, map[];
      new;
      assert Leaves(shape) == [leaf];
    }

    method SearchLeaf(key: Key) returns (n: Node, ghost p: seq<nat>)
      requires Valid()
      ensures OnPath(shape, p) && At(shape, p).Leaf? && At(shape, p).node == n
      ensures n in Nodes(shape) && n.leaf && n.keys == At(shape, p).keys && n.values == At(shape, p).vals
      ensures |n.values| == |n.keys| && Ascending(n.keys)
      ensures Brackets(Pre(shape, p), key, Post(shape, p))
    {
      ghost var h := Snap(Nodes(shape));
      n, p := root, [];
      KeysAt(shape, p, h, height, dense, contents);
      while !n.leaf
        invariant OnPath(shape, p) && At(shape, p).node == n && n in Nodes(shape)
        invariant Mirrors(At(shape, p), h) && Ascending(At(shape, p).keys)
        invariant Brackets(Pre(shape, p), key, Post(shape, p))
        decreases At(shape, p)
      {
        var idx := SearchKeys(n.keys, key, false);
        Descend(shape, p, idx, key, contents);
        p := p + [idx];
        KeysAt(shape, p, h, height, dense, contents);
        n := n.children[idx];
      }
    }

    /** The leaf for a key and the place of the key in it: where it is, or where it would go. */
    method Locate(key: Key) returns (leaf: Node, idx: nat, ghost p: seq<nat>)
      requires Valid()
      ensures OnPath(shape, p) && At(shape, p).Leaf? && At(shape, p).node == leaf && leaf in Nodes(shape)
      ensures leaf.leaf && leaf.keys == At(shape, p).keys && leaf.values == At(shape, p).vals
      ensures Brackets(Pre(shape, p), key, Post(shape, p))
      ensures idx <= |leaf.keys| == |leaf.values|
      ensures if idx < |leaf.keys| && leaf.keys[idx] == key
              then key in contents && contents[key] == leaf.values[idx]
              else key !in contents &&
                   (forall j :: 0 <= j < idx ==> Less(leaf.keys[j], key)) &&
                   (forall j :: idx <= j < |leaf.keys| ==> Less(key, leaf.keys[j]))
    {
      hide Mirrors, Formed, Nodes, Brackets, Pre, Post, OnPath, At, Good, Less, Ascending, Snap;
      ghost var h := Snap(Nodes(shape));
      assert Good(shape, h, height, dense, contents);
      leaf, p := SearchLeaf(key);
      idx := SearchKeys(leaf.keys, key, true);
      LookupStep(shape, p, idx, key, h, height, dense, contents);
      if !(idx < |leaf.keys| && leaf.keys[idx] == key) {
        StrictlyPast(leaf.keys, idx, key);
      }
    }

    method Get(key: Key) returns (r: Lookup)
      requires Valid()
      ensures r == Find(contents, key) && Valid()
    {
      hide Mirrors, Formed, Nodes, Brackets, Pre, Post, OnPath, At, Less, Good, Snap;
      ghost var h := Snap(Nodes(shape));
      assert Good(shape, h, height, dense, contents);
      var leaf, idx, p := Locate(key);
      if idx < |leaf.keys| && leaf.keys[idx] == key {
        return Found(leaf.values[idx]);
      }
      return Missing;
    }

    method Del(key: Key)
      requires Valid()
      modifies this, Nodes(shape)
      ensures Valid() && contents == old(contents) - {key}
      ensures Nodes(shape) == old(Nodes(shape)) && height == old(height)
    {
      hide Mirrors, Formed, Nodes, Replace, Brackets, Pre, Post, OnPath, At, Good, Less, Ascending, Snap;
      ghost var t, h := shape, Snap(Nodes(shape));
      assert Good(t, h, height, dense, contents);
      var leaf, idx, p := Locate(key);
      if idx < |leaf.keys| && leaf.keys[idx] == key {
        WriteLeaf(leaf, leaf.keys[..idx] + leaf.keys[idx + 1..], leaf.values[..idx] + leaf.values[idx + 1..], Nodes(t));
        ghost var s := Removed(At(t, p), idx);
        DeleteStep(t, p, idx, key, h, height, dense, contents);
        shape, dense, contents := Replace(t, p, s), false, contents - {key};
      } else {
        NothingRemoved(contents, key);
      }
    }

    method Set(key: Key, value: Value)
      requires Valid()
      modifies this, Nodes(shape)
      ensures Valid() && contents == old(contents)[key := value] && dense == old(dense)
      ensures forall n :: n in Nodes(shape) && n !in old(Nodes(shape)) ==> fresh(n)
    {
      hide Mirrors, Formed, Nodes, Replace, Brackets, Pre, Post, OnPath, At, Good, Overfull, Less, Ascending, Snap;
      ghost var t, h := shape, Snap(Nodes(shape));
      assert Good(t, h, height, dense, contents);
      var leaf, idx, p := Locate(key);
      if idx < |leaf.keys| && leaf.keys[idx] == key {
        WriteLeaf(leaf, leaf.keys, leaf.values[idx := value], Nodes(t));
        ghost var s := Updated(At(t, p), idx, value);
        UpdateStep(t, p, idx, key, value, h, height, dense, contents);
        shape, contents := Replace(t, p, s), contents[key := value];
        return;
      }

      WriteLeaf(leaf, InsertAt(leaf.keys, idx, key), InsertAt(leaf.values, idx, value), Nodes(t));
      ghost var s := Inserted(At(t, p), idx, key, value);
      InsertStep(t, p, idx, key, value, h, height, dense, contents);
      shape, contents := Replace(t, p, s), contents[key := value];
      if |leaf.keys| < ORDER {
        return;
      }
      ReplacedAt(t, p, s);
      Split(leaf, p);
    }

    /** Cuts an overfull leaf in two and links the new leaf after it. */
    method Split(leaf: Node, ghost p: seq<nat>)
      requires root == shape.node && Overfull(shape, Snap(Nodes(shape)), p, height, dense, contents)
      requires At(shape, p).Leaf? && leaf == At(shape, p).node
      modifies this, Nodes(shape)
      ensures Valid() && contents == old(contents) && dense == old(dense)
      ensures forall n :: n in Nodes(shape) && n !in old(Nodes(shape)) ==> fresh(n)
    {
      hide Mirrors, Formed, Nodes, Replace, OnPath, At, Good, Overfull, Pending, Snap;
      ghost var t, h := shape, Snap(Nodes(shape));
      OverfullAt(t, h, p, height, dense, contents);
      SnapAt(Nodes(t), leaf);
      var newLeaf := CutLeaf(leaf, Nodes(t));
      ghost var s, h' := At(t, p), Snap(Nodes(t) + {newLeaf});
      LeafMirrors(HighLeaf(s, newLeaf), h');
      SplitLeafStep(t, p, newLeaf, h, h', height, dense, contents);
      LeafNodes(t, p, LowLeaf(s), h, height, dense, contents);
      ReplacedAt(t, p, LowLeaf(s));
      shape := Replace(t, p, LowLeaf(s));
      InsertIntoParent(leaf, newLeaf.keys[0], newLeaf, p, HighLeaf(s, newLeaf));
    }

    /** A new root over the old one and its new right sibling. */
    method GrowRoot(key: Key, right: Node, ghost r: Tree)
      requires root == shape.node && right == r.node
      requires Pending(shape, Snap(Nodes(shape) + Nodes(r)), [], key, r, height, dense, contents)
      modifies this
      ensures Valid() && contents == old(contents) && dense == old(dense)
      ensures fresh(root) && Nodes(shape) == old(Nodes(shape)) + Nodes(r) + {root}
    {
      hide Mirrors, Formed, Nodes, Good, Pending, Snap;
      ghost var t, ns := shape, Nodes(shape) + Nodes(r);
      ghost var h := Snap(ns);
      var newRoot := NewInternal([key], [root, right], ns);
      RootStep(t, newRoot, key, r, h, Snap(ns + {newRoot}), height, dense, contents);
      root := newRoot;
      shape, height := Internal(newRoot, [key], [t, r]), height + 1;
    }

    /** Attaches `right` after `left` in the parent of `left`, or makes a new root of the two. */
    method InsertIntoParent(left: Node, key: Key, right: Node, ghost p: seq<nat>, ghost r: Tree)
      requires root == shape.node && Pending(shape, Snap(Nodes(shape) + Nodes(r)), p, key, r, height, dense, contents)
      requires left == At(shape, p).node && right == r.node
      modifies this, Nodes(shape), Nodes(r)
      ensures Valid() && contents == old(contents) && dense == old(dense)
      ensures forall n :: n in Nodes(shape) && n !in old(Nodes(shape)) && n !in Nodes(r) ==> fresh(n)
      decreases |p|, 1
    {
      hide Mirrors, Formed, Nodes, Replace, OnPath, At, Good, Overfull, Pending, Snap, Distinct, Flat, Leaves, Reads,
           Chained;
      ghost var t := shape;
      ghost var h := Snap(Nodes(t) + Nodes(r));
      PathIsRoot(t, h, p, key, r, height, dense, contents);
      if root == left {
        GrowRoot(key, right, r);
        return;
      }

      var parent, childIdx, q := FindParent(root, left, t, h);
      ParentFound(t, h, p, key, r, height, dense, contents, q, childIdx);
      SnapAt(Nodes(t) + Nodes(r), parent);
      WriteInternal(parent, InsertAt(parent.keys, childIdx, key), InsertAt(parent.children, childIdx + 1, right),
                    Nodes(t) + Nodes(r));
      AttachStep(t, q, childIdx, key, r, h, Snap(Nodes(t) + Nodes(r)), height, dense, contents);
      ReplacedAt(t, q, Attach(At(t, q), childIdx, key, r));
      shape := Replace(t, q, Attach(At(t, q), childIdx, key, r));
      if |parent.keys| < ORDER {
        return;
      }
      SplitInternal(parent, q);
    }

    /** Cuts an overfull internal node around its middle key, which moves up to the parent. */
    method SplitInternal(n: Node, ghost p: seq<nat>)
      requires root == shape.node && Overfull(shape, Snap(Nodes(shape)), p, height, dense, contents)
      requires At(shape, p).Internal? && n == At(shape, p).node
      modifies this, Nodes(shape)
      ensures Valid() && contents == old(contents) && dense == old(dense)
      ensures forall n :: n in Nodes(shape) && n !in old(Nodes(shape)) ==> fresh(n)
      decreases |p|, 2
    {
      hide Mirrors, Formed, Nodes, Replace, OnPath, At, Good, Overfull, Pending, Snap;
      ghost var t, h := shape, Snap(Nodes(shape));
      OverfullAt(t, h, p, height, dense, contents);
      SnapAt(Nodes(t), n);
      var promoteKey := n.keys[MID];
      var newNode := CutInternal(n, Nodes(t));
      ghost var s, h' := At(t, p), Snap(Nodes(t) + {newNode});
      SplitInternalStep(t, p, newNode, h, h', height, dense, contents);
      HalfNodes(t, p, newNode, h, height, dense, contents);
      ReplacedAt(t, p, LeftHalf(s));
      shape := Replace(t, p, LeftHalf(s));
      InsertIntoParent(n, promoteKey, newNode, p, RightHalf(s, newNode));
    }

    /** The parent of the node at `p` and its place there. */
    method FindParent(n: Node, target: Node, ghost t: Tree, ghost h: Heap)
      returns (parent: Node?, idx: nat, ghost q: seq<nat>)
      requires t.node == n && Mirrors(t, h) && Distinct(t) && h == Snap(h.Keys)
      ensures parent != null ==>
                OnPath(t, q) && At(t, q).Internal? && At(t, q).node == parent &&
                idx < |At(t, q).kids| && At(t, q).kids[idx].node == target
      ensures parent == null ==> forall q :: OnPath(t, q) && q != [] ==> At(t, q).node != target
      decreases t
    {
      q := [];
      if n.leaf {
        return null, 0, [];
      }
      var i := 0;
      while i < |n.children|
        invariant i <= |n.children|
        invariant forall j, q :: 0 <= j < i && OnPath(t.kids[j], q) ==> At(t.kids[j], q).node != target
      {
        var child := n.children[i];
        if child == target {
          return n, i, [];
        }
        if !child.leaf {
          parent, idx, q := FindParent(child, target, t.kids[i], h);
          if parent != null {
            q := [i] + q;
            return;
          }
        }
        i := i + 1;
      }
      return null, 0, [];
    }

    /** Before any deletion, h levels of internal nodes mean at least 2 * 16^h keys. */
    lemma HeightBounded()
      requires Valid() && dense && height >= 1
      ensures |contents| >= 2 * Pow16(height)
    {
      HeightBound(shape, Snap(Nodes(shape)), height, contents);
    }

    method PrefixKeys(prefix: Key) returns (out: seq<Key>)
      requires Valid()
      ensures Valid() && Ascending(out) && forall k :: k in out <==> k in contents && prefix <= k
    {
      hide Mirrors, Formed, Nodes, Brackets, Pre, Post, OnPath, At, Less, Stored, Good, Leaves, Snap, Offset, Select,
           Ascending, WithPrefix, InRange, AtMost;
      ghost var t, h := shape, Snap(Nodes(shape));
      assert Good(t, h, height, dense, contents);
      ghost var keep := WithPrefix(prefix);
      ChainLists(t, h, height, dense, contents);
      ghost var ls, all := Leaves(t), Stored(Leaves(t), h);
      PrefixScan(all, contents.Keys, prefix);
      var n, p := SearchLeaf(prefix);
      var leaf: Node? := n;
      ghost var j := |LeavesBefore(t, p)|;
      ScanStart(t, p, prefix, h, height, dense, contents, keep);
      out := [];
      while leaf != null
        invariant 0 <= j <= |ls| && leaf == (if j < |ls| then ls[j] else null)
        invariant Offset(ls, j, h) <= |all| && (leaf == null ==> Offset(ls, j, h) == |all|)
        invariant out == Select(all[..Offset(ls, j, h)], keep)
        decreases |ls| - j
      {
        OffsetAt(ls, j, h);
        ChainStep(t, h, height, dense, contents, j);
        SnapAt(Nodes(t), leaf);
        var stop;
        out, stop := TakePrefix(leaf.keys, prefix, out, all, Offset(ls, j, h));
        if stop {
          return;
        }
        leaf, j := leaf.next, j + 1;
      }
      assert all[..|all|] == all;
    }

    method RangeKeys(start: Key, end: Key) returns (out: seq<Key>)
      requires Valid()
      ensures Valid() && Ascending(out) && forall k :: k in out <==> k in contents && AtMost(start, k) && AtMost(k, end)
    {
      hide Mirrors, Formed, Nodes, Brackets, Pre, Post, OnPath, At, Less, Stored, Good, Leaves, Snap, Offset, Select,
           Ascending, WithPrefix, InRange, AtMost;
      ghost var t, h := shape, Snap(Nodes(shape));
      assert Good(t, h, height, dense, contents);
      ghost var keep := InRange(start, end);
      ChainLists(t, h, height, dense, contents);
      ghost var ls, all := Leaves(t), Stored(Leaves(t), h);
      RangeScan(all, contents.Keys, start, end);
      var n, p := SearchLeaf(start);
      var leaf: Node? := n;
      ghost var j := |LeavesBefore(t, p)|;
      ScanStart(t, p, start, h, height, dense, contents, keep);
      out := [];
      while leaf != null
        invariant 0 <= j <= |ls| && leaf == (if j < |ls| then ls[j] else null)
        invariant Offset(ls, j, h) <= |all| && (leaf == null ==> Offset(ls, j, h) == |all|)
        invariant out == Select(all[..Offset(ls, j, h)], keep)
        decreases |ls| - j
      {
        OffsetAt(ls, j, h);
        ChainStep(t, h, height, dense, contents, j);
        SnapAt(Nodes(t), leaf);
        var stop;
        out, stop := TakeRange(leaf.keys, start, end, out, all, Offset(ls, j, h));
        if stop {
          return;
        }
        leaf, j := leaf.next, j + 1;
      }
      assert all[..|all|] == all;
    }
  }
}
