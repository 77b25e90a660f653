/** The radix tree as a flat table: which node lies at which path of bytes, and what holds between any two of them. */
module ArtPaths {
  import opened Bytes
  import opened ArtNode

  /** The bytes consumed on the way from the root to a node. */
  type Path = seq<byte>

  /** The node at each path, and what it looks like. */
  datatype Tree = Tree(at: map<Path, Node>, look: map<Path, View>)

  const EMPTY := Tree(map[], map[])

  /** A key as a search reads it: past its end there are bytes 0. */
  function ByteAt(k: Key, i: nat): byte {
    if i < |k| then k[i] else 0
  }

  /** The search for a key can lead here. */
  ghost predicate OnWay(p: Path, k: Key) {
    forall i :: 0 <= i < |p| ==> p[i] == ByteAt(k, i)
  }

  /** Where the way of a key ends. */
  function Term(k: Key): Path {
    k + [0]
  }

  /** Where the child under a byte lies. */
  function Next(p: Path, v: View, b: byte): Path {
    p + v.prefix + [b]
  }

  /** A path that goes on through a child of a node. */
  ghost predicate Through(p: Path, v: View, q: Path) {
    |p| + |v.prefix| < |q| && p + v.prefix <= q && q[|p| + |v.prefix|] in v.kids
  }

  /** The way of a key goes on through a child of a node. */
  ghost predicate Leads(p: Path, v: View, k: Key) {
    OnWay(p + v.prefix, k) && ByteAt(k, |p| + |v.prefix|) in v.kids
  }

  // ----- the invariant

  ghost predicate LeafOk(p: Path, v: View, m: map<Key, Value>) {
    v.leaf.Leaf? ==>
      && v.prefix == [] && v.kids == map[] && OnWay(p, v.leaf.key)
      && v.leaf.key in m && m[v.leaf.key] == v.leaf.value
  }

  /** Children lie where their bytes say, except under a hole, where a child has been taken out. */
  ghost predicate InnerOk(t: Tree, p: Path, v: View, holes: set<Path>) {
    v.leaf.NoLeaf? ==> forall b :: b in v.kids ==>
      Next(p, v, b) in holes || (Next(p, v, b) in t.at && t.at[Next(p, v, b)] == v.kids[b])
  }

  /** What lies below a node is below one of its children. */
  ghost predicate NestedOk(p: Path, v: View, q: Path) {
    p < q ==> v.leaf.NoLeaf? && Through(p, v, q)
  }

  /** A prefix on the way to a leaf lies within its key. */
  ghost predicate PlainOk(p: Path, v: View, q: Path, w: View) {
    p < q && v.prefix != [] && w.leaf.Leaf? ==> |p| + |v.prefix| <= |w.leaf.key|
  }

  ghost predicate Placed(t: Tree) {
    && t.at.Keys == t.look.Keys && (t.at != map[] ==> [] in t.at)
    && forall p, q :: p in t.at && q in t.at && t.at[p] == t.at[q] ==> p == q
  }

  ghost predicate LeavesOk(t: Tree, m: map<Key, Value>) {
    forall p {:trigger LeafOk(p, t.look[p], m)} :: p in t.look ==> LeafOk(p, t.look[p], m)
  }

  ghost predicate InnersOk(t: Tree, holes: set<Path>) {
    && (forall h, p :: h in holes && p in t.look ==> !(h <= p))
    && (forall p {:trigger InnerOk(t, p, t.look[p], holes)} :: p in t.look ==> InnerOk(t, p, t.look[p], holes))
  }

  ghost predicate Nested(t: Tree) {
    forall p, q {:trigger NestedOk(p, t.look[p], q)} :: p in t.look && q in t.look ==> NestedOk(p, t.look[p], q)
  }

  ghost predicate Plain(t: Tree) {
    forall p, q {:trigger PlainOk(p, t.look[p], q, t.look[q])} ::
      p in t.look && q in t.look ==> PlainOk(p, t.look[p], q, t.look[q])
  }

  ghost predicate HasLeaf(t: Tree, k: Key, v: Value) {
    exists p :: p in t.look && t.look[p].leaf == Leaf(k, v)
  }

  ghost predicate Complete(t: Tree, m: map<Key, Value>) {
    forall k {:trigger HasLeaf(t, k, m[k])} :: k in m ==> HasLeaf(t, k, m[k])
  }

  ghost predicate Good(t: Tree, m: map<Key, Value>, holes: set<Path>) {
    Placed(t) && LeavesOk(t, m) && InnersOk(t, holes) && Nested(t) && Plain(t) && Complete(t, m)
  }

  // ----- searching

  lemma Comparable(p: Path, q: Path, s: Path)
    requires p <= s && q <= s
    ensures p < q || p == q || q < p
  {
    if |p| == |q| {
      assert p == s[..|p|] == q;
    }
  }

  lemma TermPrefix(p: Path, k: Key)
    requires p <= Term(k) && |p| <= |k|
    ensures p <= k
  {
    assert Term(k)[..|k|] == k;
  }

  lemma TermOnWay(p: Path, k: Key)
    requires p <= Term(k)
    ensures OnWay(p, k)
  {
  }

  lemma OnWayWithin(p: Path, k: Key)
    requires OnWay(p, k)
    ensures |p| <= |k| ==> p <= k
    ensures |p| <= |k| + 1 ==> p <= Term(k)
  {
  }

  lemma OnWayPrefix(p: Path, q: Path, k: Key)
    requires p <= q && OnWay(q, k)
    ensures OnWay(p, k)
  {
  }

  lemma OnWayOrdered(p: Path, q: Path, k: Key)
    requires OnWay(p, k) && OnWay(q, k)
    ensures p < q || p == q || q < p
  {
  }

  lemma OnWayNext(p: Path, v: View, b: byte, k: Key)
    ensures OnWay(Next(p, v, b), k) <==> OnWay(p + v.prefix, k) && b == ByteAt(k, |p| + |v.prefix|)
  {
    var w, q := p + v.prefix, Next(p, v, b);
    assert q == w + [b] && q[|w|] == b;
    assert forall i :: 0 <= i < |w| ==> q[i] == w[i];
  }

  /** The leaf of a key in the tree. */
  lemma LeafOf(t: Tree, m: map<Key, Value>, k: Key) returns (q: Path)
    requires LeavesOk(t, m) && Complete(t, m) && k in m
    ensures q in t.look && t.look[q].leaf == Leaf(k, m[k]) && OnWay(q, k)
  {
    assert HasLeaf(t, k, m[k]);
    q :| q in t.look && t.look[q].leaf == Leaf(k, m[k]);
    assert LeafOk(q, t.look[q], m);
  }

  /** A key in the tree lies below every inner node on its way. */
  lemma Toward(t: Tree, m: map<Key, Value>, holes: set<Path>, p: Path, k: Key)
    requires Good(t, m, holes) && p in t.look && t.look[p].leaf.NoLeaf? && OnWay(p, k) && k in m
    ensures Leads(p, t.look[p], k) && (t.look[p].prefix != [] ==> p + t.look[p].prefix <= k)
  {
    hide LeavesOk, Complete, Placed, InnersOk;
    var v := t.look[p];
    var q := LeafOf(t, m, k);
    OnWayOrdered(p, q, k);
    assert NestedOk(q, t.look[q], p) && NestedOk(p, v, q) && PlainOk(p, v, q, t.look[q]);
    OnWayPrefix(p + v.prefix, q, k);
    OnWayWithin(p + v.prefix, k);
  }

  /** A leaf on the way of a key in the tree is its own. */
  lemma LeafOnWay(t: Tree, m: map<Key, Value>, holes: set<Path>, p: Path, k: Key)
    requires Good(t, m, holes) && p in t.look && t.look[p].leaf.Leaf? && OnWay(p, k) && k in m
    ensures t.look[p].leaf == Leaf(k, m[k])
  {
    hide LeavesOk, Complete, Placed, InnersOk, Plain;
    var q := LeafOf(t, m, k);
    OnWayOrdered(p, q, k);
    assert NestedOk(q, t.look[q], p) && NestedOk(p, t.look[p], q);
  }

  // ----- one step at a time

  /** A new leaf under a byte that has no child yet. */
  ghost function AddLeaf(t: Tree, p: Path, b: byte, n: Node, k: Key, value: Value): Tree
    requires p in t.look
  {
    var v := t.look[p];
    var q := Next(p, v, b);
    Tree(t.at[q := n], t.look[p := v.(kids := v.kids[b := n])][q := View([], Leaf(k, value), map[])])
  }

  ghost predicate CanAddLeaf(t: Tree, p: Path, b: byte, n: Node, k: Key) {
    && p in t.look && t.look[p].leaf.NoLeaf? && b !in t.look[p].kids
    && n !in t.at.Values && OnWay(Next(p, t.look[p], b), k) && |p| + |t.look[p].prefix| <= |k|
  }

  lemma AddLeafAbsent(t: Tree, p: Path, b: byte)
    requires Nested(t) && p in t.look && b !in t.look[p].kids
    ensures Next(p, t.look[p], b) !in t.look
  {
    var q := Next(p, t.look[p], b);
    assert q in t.look ==> NestedOk(p, t.look[p], q);
  }

  lemma NothingBelow(t: Tree, p: Path, b: byte, y: Path)
    requires Nested(t) && p in t.look && b !in t.look[p].kids && y in t.look
    ensures !(Next(p, t.look[p], b) < y)
  {
    var v := t.look[p];
    var r := Next(p, v, b);
    assert NestedOk(p, v, y) && r[|p| + |v.prefix|] == b;
  }

  lemma ThroughExtends(p: Path, v: View, q: Path, r: Path)
    requires Through(p, v, q) && q <= r
    ensures Through(p, v, r)
  {
  }

  lemma AddLeafNested(t: Tree, p: Path, b: byte, n: Node, k: Key, value: Value)
    requires Nested(t) && CanAddLeaf(t, p, b, n, k)
    ensures Nested(AddLeaf(t, p, b, n, k, value))
  {
    var v := t.look[p];
    var u, r := AddLeaf(t, p, b, n, k, value), Next(p, v, b);
    AddLeafAbsent(t, p, b);
    forall x, y | x in u.look && y in u.look ensures NestedOk(x, u.look[x], y) {
      if x != r && y != r {
        assert NestedOk(x, t.look[x], y);
      } else if x != r && x < r {
        Comparable(x, p, r);
        assert NestedOk(x, t.look[x], p) && NestedOk(p, v, x);
        if x < p {
          ThroughExtends(x, t.look[x], p, r);
        }
      } else if x == r && y != r {
        NothingBelow(t, p, b, y);
      }
    }
  }

  lemma AddLeafInners(t: Tree, p: Path, b: byte, n: Node, k: Key, value: Value)
    requires t.at.Keys == t.look.Keys && InnersOk(t, {}) && Nested(t) && CanAddLeaf(t, p, b, n, k)
    ensures InnersOk(AddLeaf(t, p, b, n, k, value), {})
  {
    var u, r := AddLeaf(t, p, b, n, k, value), Next(p, t.look[p], b);
    AddLeafAbsent(t, p, b);
    forall x | x in u.look ensures InnerOk(u, x, u.look[x], {}) {
      if x != r {
        assert InnerOk(t, x, t.look[x], {});
        forall c | c in u.look[x].kids ensures u.look[x].leaf.NoLeaf? ==>
                     Next(x, u.look[x], c) in u.at && u.at[Next(x, u.look[x], c)] == u.look[x].kids[c] {
          assert Next(x, u.look[x], c) == Next(x, t.look[x], c);
        }
      }
    }
  }

  lemma AddLeafPlaced(t: Tree, p: Path, b: byte, n: Node, k: Key, value: Value)
    requires Placed(t) && CanAddLeaf(t, p, b, n, k)
    ensures Placed(AddLeaf(t, p, b, n, k, value))
  {
    assert p in t.at;
  }

  lemma AddLeafPlain(t: Tree, p: Path, b: byte, n: Node, k: Key, value: Value)
    requires Nested(t) && Plain(t) && CanAddLeaf(t, p, b, n, k)
    ensures Plain(AddLeaf(t, p, b, n, k, value))
  {
    var u, r := AddLeaf(t, p, b, n, k, value), Next(p, t.look[p], b);
    AddLeafAbsent(t, p, b);
    forall x, y | x in u.look && y in u.look ensures PlainOk(x, u.look[x], y, u.look[y]) {
      if x != r && y != r {
        assert PlainOk(x, t.look[x], y, t.look[y]);
      } else if x != r && x < r {
        Comparable(x, p, r);
        assert NestedOk(x, t.look[x], p) && NestedOk(p, t.look[p], x);
      }
    }
  }

  lemma NotThere(t: Tree, m: map<Key, Value>, p: Path, b: byte, k: Key)
    requires Good(t, m, {}) && p in t.look && t.look[p].leaf.NoLeaf? && b !in t.look[p].kids
    requires OnWay(Next(p, t.look[p], b), k)
    ensures k !in m
  {
    hide Good;
    var v := t.look[p];
    OnWayPrefix(p, Next(p, v, b), k);
    OnWayNext(p, v, b, k);
    if k in m {
      Toward(t, m, {}, p, k);
    }
  }

  lemma AddLeafStep(t: Tree, m: map<Key, Value>, p: Path, b: byte, n: Node, k: Key, value: Value)
    requires Good(t, m, {}) && CanAddLeaf(t, p, b, n, k)
    ensures Good(AddLeaf(t, p, b, n, k, value), m[k := value], {}) && k !in m
  {
    hide LeavesOk, InnersOk, Nested, Plain, Complete, Placed;
    NotThere(t, m, p, b, k);
    AddLeafAbsent(t, p, b);
    AddLeafPlaced(t, p, b, n, k, value);
    AddLeafInners(t, p, b, n, k, value) by { PlacedKeys(t); }
    AddLeafNested(t, p, b, n, k, value);
    AddLeafPlain(t, p, b, n, k, value);
    AddLeafLeaves(t, m, p, b, n, k, value);
  }

  lemma PlacedKeys(t: Tree)
    requires Placed(t)
    ensures t.at.Keys == t.look.Keys
  {
  }

  lemma AddLeafLeaves(t: Tree, m: map<Key, Value>, p: Path, b: byte, n: Node, k: Key, value: Value)
    requires LeavesOk(t, m) && Complete(t, m) && CanAddLeaf(t, p, b, n, k) && k !in m
    requires Next(p, t.look[p], b) !in t.look
    ensures LeavesOk(AddLeaf(t, p, b, n, k, value), m[k := value])
    ensures Complete(AddLeaf(t, p, b, n, k, value), m[k := value])
  {
    var u, r, m' := AddLeaf(t, p, b, n, k, value), Next(p, t.look[p], b), m[k := value];
    forall x | x in u.look ensures LeafOk(x, u.look[x], m') {
      if x != r {
        assert LeafOk(x, t.look[x], m);
      }
    }
    forall key | key in m' ensures HasLeaf(u, key, m'[key]) {
      if key == k {
        assert u.look[r].leaf == Leaf(k, value);
      } else {
        assert HasLeaf(t, key, m[key]);
        var q :| q in t.look && t.look[q].leaf == Leaf(key, m[key]);
        assert u.look[q].leaf == Leaf(key, m[key]);
      }
    }
  }

  /** Puts an inner node above what was at a path: the node there becomes the inner one, a new node takes its place. */
  ghost function Split(t: Tree, p: Path, u: seq<byte>, c: byte, n: Node, below: View): Tree {
    var q := p + u + [c];
    Tree(t.at[q := n], t.look[p := View(u, NoLeaf, map[c := n])][q := below])
  }

  /** The new node carries on where the old one did. */
  ghost predicate CanSplit(t: Tree, p: Path, u: seq<byte>, c: byte, n: Node, below: View) {
    && p in t.look && n !in t.at.Values
    && (t.look[p].leaf.Leaf? ==>
          && below == t.look[p] && OnWay(p + u + [c], below.leaf.key)
          && (u != [] ==> |p| + |u| <= |below.leaf.key|))
    && (t.look[p].leaf.NoLeaf? ==> t.look[p] == View(u + [c] + below.prefix, NoLeaf, below.kids) && below.leaf.NoLeaf?)
  }

  lemma SplitAbsent(t: Tree, p: Path, u: seq<byte>, c: byte, n: Node, below: View)
    requires Nested(t) && CanSplit(t, p, u, c, n, below)
    ensures p + u + [c] !in t.look
  {
    var q := p + u + [c];
    assert q in t.look ==> NestedOk(p, t.look[p], q);
  }

  /** What was below the old node is below the new one. */
  lemma SplitBelow(t: Tree, p: Path, u: seq<byte>, c: byte, n: Node, below: View, y: Path)
    requires Nested(t) && CanSplit(t, p, u, c, n, below) && y in t.look && p < y
    ensures p + u + [c] < y && below.leaf.NoLeaf? && Through(p + u + [c], below, y) && y[|p| + |u|] == c
  {
    var q := p + u + [c];
    assert NestedOk(p, t.look[p], y);
    assert q + below.prefix == p + t.look[p].prefix;
    assert q[|p| + |u|] == c;
  }

  lemma SplitNested(t: Tree, p: Path, u: seq<byte>, c: byte, n: Node, below: View)
    requires Nested(t) && CanSplit(t, p, u, c, n, below)
    ensures Nested(Split(t, p, u, c, n, below))
  {
    hide CanSplit;
    SplitAbsent(t, p, u, c, n, below);
    var r, q := Split(t, p, u, c, n, below), p + u + [c];
    forall x, y | x in r.look && y in r.look ensures NestedOk(x, r.look[x], y) {
      SplitNestedOne(t, p, u, c, n, below, x, y);
    }
  }

  lemma SplitNestedOne(t: Tree, p: Path, u: seq<byte>, c: byte, n: Node, below: View, x: Path, y: Path)
    requires Nested(t) && CanSplit(t, p, u, c, n, below) && p + u + [c] !in t.look
    requires var r := Split(t, p, u, c, n, below); x in r.look && y in r.look
    ensures NestedOk(x, Split(t, p, u, c, n, below).look[x], y)
  {
    var q := p + u + [c];
    assert p in t.look && q[|p| + |u|] == c;
    if x < y {
      if x == p {
        if y != q {
          SplitBelow(t, p, u, c, n, below, y);
        }
      } else if x == q {
        SplitBelow(t, p, u, c, n, below, y);
      } else if y == q {
        Comparable(x, p, q);
        if p < x {
          SplitBelow(t, p, u, c, n, below, x);
        } else {
          assert NestedOk(x, t.look[x], p);
          ThroughExtends(x, t.look[x], p, q);
        }
      } else {
        assert NestedOk(x, t.look[x], y);
      }
    }
  }

  lemma SplitPlain(t: Tree, p: Path, u: seq<byte>, c: byte, n: Node, below: View)
    requires Nested(t) && Plain(t) && CanSplit(t, p, u, c, n, below) && p + u + [c] !in t.look
    ensures Plain(Split(t, p, u, c, n, below))
  {
    hide CanSplit;
    var r := Split(t, p, u, c, n, below);
    forall x, y | x in r.look && y in r.look ensures PlainOk(x, r.look[x], y, r.look[y]) {
      SplitPlainOne(t, p, u, c, n, below, x, y);
    }
  }

  lemma SplitPlainOne(t: Tree, p: Path, u: seq<byte>, c: byte, n: Node, below: View, x: Path, y: Path)
    requires Nested(t) && Plain(t) && CanSplit(t, p, u, c, n, below) && p + u + [c] !in t.look
    requires var r := Split(t, p, u, c, n, below); x in r.look && y in r.look
    ensures var r := Split(t, p, u, c, n, below); PlainOk(x, r.look[x], y, r.look[y])
  {
    var q := p + u + [c];
    if x < y {
      if x == p || x == q {
        if y != q {
          assert PlainOk(p, t.look[p], y, t.look[y]);
          assert t.look[p].leaf.Leaf? ==> NestedOk(p, t.look[p], y);
        }
      } else if y == q {
        Comparable(x, p, q);
        assert PlainOk(x, t.look[x], p, t.look[p]);
        if p < x {
          SplitBelow(t, p, u, c, n, below, x);
        }
      } else if y != p {
        assert PlainOk(x, t.look[x], y, t.look[y]);
      }
    }
  }

  lemma SplitInners(t: Tree, p: Path, u: seq<byte>, c: byte, n: Node, below: View)
    requires t.at.Keys == t.look.Keys && InnersOk(t, {}) && CanSplit(t, p, u, c, n, below) && p + u + [c] !in t.look
    ensures InnersOk(Split(t, p, u, c, n, below), {})
  {
    var r, q := Split(t, p, u, c, n, below), p + u + [c];
    forall x | x in r.look ensures InnerOk(r, x, r.look[x], {}) {
      if x == q {
        SplitInnerBelow(t, p, u, c, n, below);
      } else if x != p {
        assert InnerOk(t, x, t.look[x], {});
      }
    }
  }

  lemma SplitInnerBelow(t: Tree, p: Path, u: seq<byte>, c: byte, n: Node, below: View)
    requires t.at.Keys == t.look.Keys && InnersOk(t, {}) && CanSplit(t, p, u, c, n, below) && p + u + [c] !in t.look
    ensures InnerOk(Split(t, p, u, c, n, below), p + u + [c], below, {})
  {
    var r, q, v := Split(t, p, u, c, n, below), p + u + [c], t.look[p];
    assert InnerOk(t, p, v, {});
    if below.leaf.NoLeaf? {
      forall b | b in below.kids ensures Next(q, below, b) in r.at && r.at[Next(q, below, b)] == below.kids[b] {
        assert Next(q, below, b) == Next(p, v, b);
      }
    }
  }

  lemma SplitStep(t: Tree, m: map<Key, Value>, p: Path, u: seq<byte>, c: byte, n: Node, below: View)
    requires Good(t, m, {}) && CanSplit(t, p, u, c, n, below)
    ensures Good(Split(t, p, u, c, n, below), m, {})
  {
    var r, q := Split(t, p, u, c, n, below), p + u + [c];
    hide LeavesOk, InnersOk, Nested, Plain, Complete;
    SplitAbsent(t, p, u, c, n, below);
    SplitNested(t, p, u, c, n, below);
    SplitPlain(t, p, u, c, n, below);
    SplitInners(t, p, u, c, n, below);
    SplitLeaves(t, m, p, u, c, n, below);
    assert Placed(r) by {
      assert p in t.at;
    }
  }

  lemma SplitLeaves(t: Tree, m: map<Key, Value>, p: Path, u: seq<byte>, c: byte, n: Node, below: View)
    requires LeavesOk(t, m) && Complete(t, m) && CanSplit(t, p, u, c, n, below) && p + u + [c] !in t.look
    ensures LeavesOk(Split(t, p, u, c, n, below), m) && Complete(Split(t, p, u, c, n, below), m)
  {
    var r, q := Split(t, p, u, c, n, below), p + u + [c];
    forall x | x in r.look ensures LeafOk(x, r.look[x], m) {
      assert LeafOk(p, t.look[p], m);
      if x != p && x != q {
        assert LeafOk(x, t.look[x], m);
      }
    }
    forall k | k in m ensures HasLeaf(r, k, m[k]) {
      assert HasLeaf(t, k, m[k]);
      var x :| x in t.look && t.look[x].leaf == Leaf(k, m[k]);
      assert r.look[if x == p then q else x].leaf == Leaf(k, m[k]);
    }
  }

  // ----- a new value for a key

  ghost function SetValue(t: Tree, p: Path, value: Value): Tree
    requires p in t.look && t.look[p].leaf.Leaf?
  {
    var v := t.look[p];
    Tree(t.at, t.look[p := v.(leaf := Leaf(v.leaf.key, value))])
  }

  /** A key has one leaf. */
  lemma OneLeaf(t: Tree, m: map<Key, Value>, p: Path, q: Path)
    requires LeavesOk(t, m) && Nested(t) && p in t.look && q in t.look
    requires t.look[p].leaf.Leaf? && t.look[q].leaf.Leaf? && t.look[p].leaf.key == t.look[q].leaf.key
    ensures p == q
  {
    assert LeafOk(p, t.look[p], m) && LeafOk(q, t.look[q], m);
    OnWayOrdered(p, q, t.look[p].leaf.key);
    assert NestedOk(p, t.look[p], q) && NestedOk(q, t.look[q], p);
  }

  lemma SetValueLeaves(t: Tree, m: map<Key, Value>, p: Path, value: Value)
    requires LeavesOk(t, m) && Nested(t) && Complete(t, m) && p in t.look && t.look[p].leaf.Leaf?
    ensures var r, m' := SetValue(t, p, value), m[t.look[p].leaf.key := value]; LeavesOk(r, m') && Complete(r, m')
  {
    hide Nested;
    var r, k := SetValue(t, p, value), t.look[p].leaf.key;
    var m' := m[k := value];
    forall x | x in r.look ensures LeafOk(x, r.look[x], m') {
      assert LeafOk(x, t.look[x], m);
      if x != p && t.look[x].leaf.Leaf? && t.look[x].leaf.key == k {
        OneLeaf(t, m, p, x);
      }
    }
    forall key | key in m' ensures HasLeaf(r, key, m'[key]) {
      if key == k {
        assert r.look[p].leaf == Leaf(k, value);
      } else {
        assert HasLeaf(t, key, m[key]);
        var x :| x in t.look && t.look[x].leaf == Leaf(key, m[key]);
        assert r.look[x].leaf == Leaf(key, m[key]);
      }
    }
  }

  lemma SetValueShape(t: Tree, p: Path, value: Value)
    requires InnersOk(t, {}) && Nested(t) && Plain(t) && p in t.look && t.look[p].leaf.Leaf?
    ensures var r := SetValue(t, p, value); InnersOk(r, {}) && Nested(r) && Plain(r)
  {
    var r := SetValue(t, p, value);
    forall x | x in r.look ensures InnerOk(r, x, r.look[x], {}) {
      assert InnerOk(t, x, t.look[x], {});
    }
    forall x, y | x in r.look && y in r.look ensures NestedOk(x, r.look[x], y) {
      assert NestedOk(x, t.look[x], y);
    }
    forall x, y | x in r.look && y in r.look ensures PlainOk(x, r.look[x], y, r.look[y]) {
      assert PlainOk(x, t.look[x], y, t.look[y]);
    }
  }

  lemma SetValueStep(t: Tree, m: map<Key, Value>, p: Path, value: Value)
    requires Good(t, m, {}) && p in t.look && t.look[p].leaf.Leaf?
    ensures Good(SetValue(t, p, value), m[t.look[p].leaf.key := value], {})
  {
    hide LeavesOk, InnersOk, Nested, Plain, Complete;
    SetValueLeaves(t, m, p, value);
    SetValueShape(t, p, value);
  }

  // ----- taking nodes out

  /** A node without children is taken out; its parent still points to it. */
  ghost function Drop(t: Tree, p: Path): Tree {
    Tree(t.at - {p}, t.look - {p})
  }

  ghost function Without(m: map<Key, Value>, l: Leaf): map<Key, Value> {
    if l.Leaf? then m - {l.key} else m
  }

  lemma DropLeaves(t: Tree, m: map<Key, Value>, p: Path)
    requires LeavesOk(t, m) && Nested(t) && Complete(t, m) && p in t.look
    ensures var r, m' := Drop(t, p), Without(m, t.look[p].leaf); LeavesOk(r, m') && Complete(r, m')
  {
    hide Nested;
    var r, v := Drop(t, p), t.look[p];
    var m' := Without(m, v.leaf);
    forall x | x in r.look ensures LeafOk(x, r.look[x], m') {
      assert LeafOk(x, t.look[x], m);
      if v.leaf.Leaf? && t.look[x].leaf.Leaf? && t.look[x].leaf.key == v.leaf.key {
        OneLeaf(t, m, p, x);
      }
    }
    forall k | k in m' ensures HasLeaf(r, k, m'[k]) {
      assert HasLeaf(t, k, m[k]);
      var x :| x in t.look && t.look[x].leaf == Leaf(k, m[k]);
      assert r.look[x].leaf == Leaf(k, m[k]);
    }
  }

  /** Nothing lies below a node without children. */
  lemma NothingUnder(t: Tree, p: Path, x: Path)
    requires Nested(t) && p in t.look && t.look[p].kids == map[] && x in t.look && p <= x
    ensures p == x
  {
    assert NestedOk(p, t.look[p], x);
  }

  lemma DropPlaced(t: Tree, p: Path)
    requires Placed(t) && Nested(t) && p in t.look && t.look[p].kids == map[]
    ensures Placed(Drop(t, p))
  {
    hide Nested;
    forall x | x in t.look && p == [] ensures x == [] {
      NothingUnder(t, p, x);
    }
  }

  lemma DropInners(t: Tree, p: Path)
    requires Placed(t) && InnersOk(t, {}) && Nested(t) && p in t.look && t.look[p].kids == map[]
    ensures InnersOk(Drop(t, p), {p})
  {
    hide Nested;
    var r := Drop(t, p);
    forall x | x in r.look ensures !(p <= x) && InnerOk(r, x, r.look[x], {p}) {
      assert InnerOk(t, x, t.look[x], {});
      if p <= x {
        NothingUnder(t, p, x);
      }
    }
  }

  lemma DropNested(t: Tree, p: Path)
    requires Nested(t) && Plain(t)
    ensures Nested(Drop(t, p)) && Plain(Drop(t, p))
  {
    hide NestedOk, PlainOk;
    var r := Drop(t, p);
    forall x, y | x in r.look && y in r.look ensures NestedOk(x, r.look[x], y) {
      assert NestedOk(x, t.look[x], y);
    }
    forall x, y | x in r.look && y in r.look ensures PlainOk(x, r.look[x], y, r.look[y]) {
      assert PlainOk(x, t.look[x], y, t.look[y]);
    }
  }

  lemma DropStep(t: Tree, m: map<Key, Value>, p: Path)
    requires Good(t, m, {}) && p in t.look && t.look[p].kids == map[]
    ensures Good(Drop(t, p), Without(m, t.look[p].leaf), {p})
  {
    hide LeavesOk, InnersOk, Nested, Plain, Complete, Placed, Without;
    DropLeaves(t, m, p);
    DropPlaced(t, p);
    DropInners(t, p);
    DropNested(t, p);
  }

  /** The parent forgets the child that was taken out. */
  ghost function Forget(t: Tree, p: Path, b: byte): Tree
    requires p in t.look
  {
    Tree(t.at, t.look[p := t.look[p].(kids := t.look[p].kids - {b})])
  }

  /** A path has one parent. */
  lemma OneParent(t: Tree, p: Path, b: byte, x: Path, c: byte)
    requires Nested(t) && p in t.look && x in t.look && Next(p, t.look[p], b) == Next(x, t.look[x], c)
    ensures p == x && b == c
  {
    var h := Next(p, t.look[p], b);
    assert p <= h && x <= h;
    Comparable(p, x, h);
    assert NestedOk(p, t.look[p], x) && NestedOk(x, t.look[x], p);
    assert h[|h| - 1] == b && h[|h| - 1] == c;
  }

  lemma ForgetInners(t: Tree, p: Path, b: byte)
    requires p in t.look && InnersOk(t, {Next(p, t.look[p], b)}) && Nested(t)
    ensures InnersOk(Forget(t, p, b), {})
  {
    var r, h := Forget(t, p, b), Next(p, t.look[p], b);
    forall x | x in r.look ensures InnerOk(r, x, r.look[x], {}) {
      assert InnerOk(t, x, t.look[x], {h});
      forall c | c in r.look[x].kids ensures Next(x, r.look[x], c) != h {
        assert Next(x, r.look[x], c) == Next(x, t.look[x], c);
        if Next(x, t.look[x], c) == h {
          OneParent(t, p, b, x, c);
        }
      }
    }
  }

  lemma ForgetThrough(p: Path, v: View, b: byte, y: Path)
    requires NestedOk(p, v, y) && !(Next(p, v, b) <= y)
    ensures NestedOk(p, v.(kids := v.kids - {b}), y)
  {
    var i := |p| + |v.prefix|;
    assert p < y ==> Next(p, v, y[i]) <= y;
  }

  lemma ForgetNested(t: Tree, p: Path, b: byte)
    requires p in t.look && InnersOk(t, {Next(p, t.look[p], b)}) && Nested(t)
    ensures Nested(Forget(t, p, b))
  {
    hide NestedOk, InnerOk, Next;
    var r, h := Forget(t, p, b), Next(p, t.look[p], b);
    forall x, y | x in r.look && y in r.look ensures NestedOk(x, r.look[x], y) {
      assert NestedOk(x, t.look[x], y) && h in {h} && !(h <= y);
      if x == p {
        ForgetThrough(p, t.look[p], b, y);
      }
    }
  }

  lemma ForgetPlain(t: Tree, p: Path, b: byte)
    requires p in t.look && Plain(t)
    ensures Plain(Forget(t, p, b))
  {
    var r := Forget(t, p, b);
    forall x, y | x in r.look && y in r.look ensures PlainOk(x, r.look[x], y, r.look[y]) {
      assert PlainOk(x, t.look[x], y, t.look[y]);
    }
  }

  lemma ForgetLeaves(t: Tree, m: map<Key, Value>, p: Path, b: byte)
    requires p in t.look && LeavesOk(t, m) && Complete(t, m) && t.look[p].leaf.NoLeaf?
    ensures LeavesOk(Forget(t, p, b), m) && Complete(Forget(t, p, b), m)
  {
    var r := Forget(t, p, b);
    forall x | x in r.look ensures LeafOk(x, r.look[x], m) {
      assert LeafOk(x, t.look[x], m);
    }
    forall k | k in m ensures HasLeaf(r, k, m[k]) {
      assert HasLeaf(t, k, m[k]);
      var x :| x in t.look && t.look[x].leaf == Leaf(k, m[k]);
      assert r.look[x].leaf == Leaf(k, m[k]);
    }
  }

  lemma ForgetStep(t: Tree, m: map<Key, Value>, p: Path, b: byte)
    requires p in t.look && Good(t, m, {Next(p, t.look[p], b)}) && t.look[p].leaf.NoLeaf?
    ensures Good(Forget(t, p, b), m, {})
  {
    hide LeavesOk, InnersOk, Nested, Plain, Complete;
    ForgetInners(t, p, b);
    ForgetPlain(t, p, b);
    ForgetNested(t, p, b);
    ForgetLeaves(t, m, p, b);
  }

  // ----- a leaf in the place of another

  /** A new leaf under a byte whose child is the leaf of another key: that key is no longer found. */
  lemma OustStep(t: Tree, m: map<Key, Value>, p: Path, b: byte, n: Node, k: Key, value: Value)
    requires Good(t, m, {}) && p in t.look && t.look[p].leaf.NoLeaf? && b in t.look[p].kids
    requires var q := Next(p, t.look[p], b); q in t.look && t.look[q].leaf.Leaf? && t.look[q].leaf.key != k
    requires n !in t.at.Values && OnWay(Next(p, t.look[p], b), k) && |p| + |t.look[p].prefix| <= |k|
    ensures var l := t.look[Next(p, t.look[p], b)].leaf.key;
            k !in m && l in m && Good(AddLeaf(t, p, b, n, k, value), (m - {l})[k := value], {})
  {
    hide Good, OnWay;
    var v, q := t.look[p], Next(p, t.look[p], b);
    var l := t.look[q].leaf.key;
    if k in m {
      LeafOnWay(t, m, {}, q, k);
    }
    assert l in m && t.look[q].kids == map[] by { LeafHere(t, m, q); }
    assert p != q;
    DropStep(t, m, q);
    var t1 := Drop(t, q);
    ForgetStep(t1, m - {l}, p, b);
    var t2 := Forget(t1, p, b);
    assert forall x :: x in t2.at.Values ==> x in t.at.Values;
    AddLeafStep(t2, m - {l}, p, b, n, k, value);
    assert (v.kids - {b})[b := n] == v.kids[b := n];
    assert AddLeaf(t2, p, b, n, k, value) == AddLeaf(t, p, b, n, k, value);
  }

  lemma LeafHere(t: Tree, m: map<Key, Value>, p: Path)
    requires Good(t, m, {}) && p in t.look && t.look[p].leaf.Leaf?
    ensures t.look[p].leaf.key in m && m[t.look[p].leaf.key] == t.look[p].leaf.value && OnWay(p, t.look[p].leaf.key)
    ensures t.look[p].prefix == [] && t.look[p].kids == map[]
  {
    assert LeafOk(p, t.look[p], m);
  }
}
