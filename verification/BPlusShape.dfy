/** The shape of a B+ tree as a value, with the identity of every node in it.
    `Flat` reads a shape from left to right, separators included: splits of
    internal nodes leave it alone, so all ordering facts live on that one list. */
module BPlusShape {
  import opened Bytes

  const ORDER: nat := 32
  const MID: nat := 16

  /** One node of the tree. Internal nodes have no `values`, and `leaf` says which kind this is:
      the source tests `values != nil`, and never sets `values` back to nil. */
  class Node {
    const leaf: bool
    var keys: seq<Key>
    var values: seq<Value>
    var children: seq<Node>
    var next: Node?

    constructor (leaf: bool)
      ensures this.leaf == leaf
      ensures keys == [] && values == [] && children == [] && next == null
    {
      this.leaf := leaf;
      keys, values, children, next := [], [], [], null;
    }
  }

  datatype Tree =
    | Leaf(node: Node, keys: seq<Key>, vals: seq<Value>)
    | Internal(node: Node, keys: seq<Key>, kids: seq<Tree>)

  datatype Entry = Sep(k: Key) | Item(k: Key, v: Value)

  // ----- reading a shape from left to right

  function Items(ks: seq<Key>, vs: seq<Value>): (es: seq<Entry>)
    requires |ks| == |vs|
    ensures |es| == |ks|
    ensures forall i :: 0 <= i < |es| ==> es[i] == Item(ks[i], vs[i])
  {
    seq(|ks|, i requires 0 <= i < |ks| => Item(ks[i], vs[i]))
  }

  /** Every internal node has one more child than keys, every leaf as many values as keys. */
  ghost predicate Formed(t: Tree) {
    match t
    case Leaf(_, ks, vs) => |vs| == |ks|
    case Internal(_, ks, cs) => |cs| == |ks| + 1 && forall c :: c in cs ==> Formed(c)
  }

  ghost function Flat(t: Tree): seq<Entry>
    requires Formed(t)
    decreases t, 0
  {
    match t
    case Leaf(_, ks, vs) => Items(ks, vs)
    case Internal(_, ks, cs) => FlatKids(ks, cs)
  }

  ghost function FlatKids(ks: seq<Key>, cs: seq<Tree>): seq<Entry>
    requires |cs| == |ks| + 1 && forall c :: c in cs ==> Formed(c)
    decreases cs, 1
  {
    if ks == [] then Flat(cs[0]) else Flat(cs[0]) + [Sep(ks[0])] + FlatKids(ks[1..], cs[1..])
  }

  ghost function Leaves(t: Tree): seq<Node>
    decreases t, 0
  {
    match t
    case Leaf(n, _, _) => [n]
    case Internal(_, _, cs) => LeavesOf(cs)
  }

  ghost function LeavesOf(cs: seq<Tree>): seq<Node>
    decreases cs, 1
  {
    if cs == [] then [] else Leaves(cs[0]) + LeavesOf(cs[1..])
  }

  ghost function Nodes(t: Tree): set<Node> {
    match t
    case Leaf(n, _, _) => {n}
    case Internal(n, _, cs) => {n} + set c, m | c in cs && m in Nodes(c) :: m
  }

  ghost predicate Apart(ss: seq<set<Node>>) {
    forall i, j :: 0 <= i < j < |ss| ==> ss[i] !! ss[j]
  }

  ghost function NodeSets(cs: seq<Tree>): (ss: seq<set<Node>>)
    ensures |ss| == |cs|
    ensures forall i :: 0 <= i < |cs| ==> ss[i] == Nodes(cs[i])
  {
    seq(|cs|, i requires 0 <= i < |cs| => Nodes(cs[i]))
  }

  /** No node occurs twice: every node has one parent. */
  ghost predicate Distinct(t: Tree) {
    match t
    case Leaf(_, _, _) => true
    case Internal(n, _, cs) =>
      && Apart(NodeSets(cs))
      && forall i :: 0 <= i < |cs| ==> n !in Nodes(cs[i]) && Distinct(cs[i])
  }

  /** Reading two runs of siblings joined by a separator. */
  lemma {:induction false} FlatJoin(ks1: seq<Key>, cs1: seq<Tree>, k: Key, ks2: seq<Key>, cs2: seq<Tree>)
    requires |cs1| == |ks1| + 1 && |cs2| == |ks2| + 1
    requires (forall c :: c in cs1 ==> Formed(c)) && (forall c :: c in cs2 ==> Formed(c))
    ensures forall c :: c in cs1 + cs2 ==> Formed(c)
    ensures FlatKids(ks1 + [k] + ks2, cs1 + cs2) == FlatKids(ks1, cs1) + [Sep(k)] + FlatKids(ks2, cs2)
  {
    var ks, cs := ks1 + [k] + ks2, cs1 + cs2;
    if ks1 == [] {
      assert ks[1..] == ks2 && cs[1..] == cs2;
    } else {
      assert ks[1..] == ks1[1..] + [k] + ks2 && cs[1..] == cs1[1..] + cs2;
      FlatJoin(ks1[1..], cs1[1..], k, ks2, cs2);
    }
  }

  lemma {:induction false} LeavesJoin(cs1: seq<Tree>, cs2: seq<Tree>)
    ensures LeavesOf(cs1 + cs2) == LeavesOf(cs1) + LeavesOf(cs2)
  {
    if cs1 == [] {
      assert cs1 + cs2 == cs2;
    } else {
      assert (cs1 + cs2)[1..] == cs1[1..] + cs2;
      LeavesJoin(cs1[1..], cs2);
    }
  }

  // ----- positions in a shape

  ghost predicate OnPath(t: Tree, p: seq<nat>) {
    p == [] || (t.Internal? && p[0] < |t.kids| && OnPath(t.kids[p[0]], p[1..]))
  }

  ghost function At(t: Tree, p: seq<nat>): Tree
    requires OnPath(t, p)
  {
    if p == [] then t else At(t.kids[p[0]], p[1..])
  }

  ghost function Replace(t: Tree, p: seq<nat>, s: Tree): Tree
    requires OnPath(t, p)
  {
    if p == [] then s
    else Internal(t.node, t.keys, t.kids[p[0] := Replace(t.kids[p[0]], p[1..], s)])
  }

  /** What is read before and after the children at index `i`. */
  ghost function Before(ks: seq<Key>, cs: seq<Tree>, i: nat): seq<Entry>
    requires i < |cs| == |ks| + 1 && forall c :: c in cs ==> Formed(c)
  {
    if i == 0 then [] else FlatKids(ks[..i - 1], cs[..i]) + [Sep(ks[i - 1])]
  }

  ghost function After(ks: seq<Key>, cs: seq<Tree>, i: nat): seq<Entry>
    requires i < |cs| == |ks| + 1 && forall c :: c in cs ==> Formed(c)
  {
    if i == |ks| then [] else [Sep(ks[i])] + FlatKids(ks[i + 1..], cs[i + 1..])
  }

  /** What is read before and after the subtree at a position. */
  ghost function Pre(t: Tree, p: seq<nat>): seq<Entry>
    requires Formed(t) && OnPath(t, p)
  {
    if p == [] then [] else Before(t.keys, t.kids, p[0]) + Pre(t.kids[p[0]], p[1..])
  }

  ghost function Post(t: Tree, p: seq<nat>): seq<Entry>
    requires Formed(t) && OnPath(t, p)
  {
    if p == [] then [] else Post(t.kids[p[0]], p[1..]) + After(t.keys, t.kids, p[0])
  }

  ghost function LeavesBefore(t: Tree, p: seq<nat>): seq<Node>
    requires OnPath(t, p)
  {
    if p == [] then [] else LeavesOf(t.kids[..p[0]]) + LeavesBefore(t.kids[p[0]], p[1..])
  }

  ghost function LeavesAfter(t: Tree, p: seq<nat>): seq<Node>
    requires OnPath(t, p)
  {
    if p == [] then [] else LeavesAfter(t.kids[p[0]], p[1..]) + LeavesOf(t.kids[p[0] + 1..])
  }

  lemma FlatFrom(ks: seq<Key>, cs: seq<Tree>, i: nat)
    requires i < |cs| == |ks| + 1 && forall c :: c in cs ==> Formed(c)
    ensures FlatKids(ks[i..], cs[i..]) == Flat(cs[i]) + After(ks, cs, i)
  {
    if i < |ks| {
      assert ks[i..][1..] == ks[i + 1..] && cs[i..][1..] == cs[i + 1..];
      assert FlatKids(ks[i..], cs[i..]) == Flat(cs[i]) + [Sep(ks[i])] + FlatKids(ks[i + 1..], cs[i + 1..]);
    } else {
      assert FlatKids(ks[i..], cs[i..]) == Flat(cs[i]);
    }
  }

  lemma FlatUpTo(ks: seq<Key>, cs: seq<Tree>, i: nat)
    requires i < |cs| == |ks| + 1 && forall c :: c in cs ==> Formed(c)
    ensures FlatKids(ks, cs) == Before(ks, cs, i) + FlatKids(ks[i..], cs[i..])
  {
    if i > 0 {
      FlatJoin(ks[..i - 1], cs[..i], ks[i - 1], ks[i..], cs[i..]);
      assert ks == ks[..i - 1] + [ks[i - 1]] + ks[i..] && cs == cs[..i] + cs[i..];
    } else {
      assert ks[i..] == ks && cs[i..] == cs;
    }
  }

  lemma FlatAround(ks: seq<Key>, cs: seq<Tree>, i: nat)
    requires i < |cs| == |ks| + 1 && forall c :: c in cs ==> Formed(c)
    ensures FlatKids(ks, cs) == Before(ks, cs, i) + Flat(cs[i]) + After(ks, cs, i)
  {
    FlatUpTo(ks, cs, i);
    FlatFrom(ks, cs, i);
    Associate(Before(ks, cs, i), Flat(cs[i]), After(ks, cs, i));
  }

  lemma Associate<T>(a: seq<T>, b: seq<T>, c: seq<T>)
    ensures a + (b + c) == a + b + c
  {
  }

  lemma {:induction false} LeavesAround(cs: seq<Tree>, i: nat)
    requires i < |cs|
    ensures LeavesOf(cs) == LeavesOf(cs[..i]) + Leaves(cs[i]) + LeavesOf(cs[i + 1..])
  {
    LeavesJoin(cs[..i], cs[i..]);
    assert cs == cs[..i] + cs[i..];
    assert cs[i..][1..] == cs[i + 1..];
  }

  lemma Regroup<T>(a: seq<T>, b: seq<T>, c: seq<T>, d: seq<T>, e: seq<T>)
    ensures a + (b + c + d) + e == (a + b) + c + (d + e)
  {
  }

  /** The subtree at a position is read in one piece. */
  lemma {:induction false} ReadAt(t: Tree, p: seq<nat>)
    requires Formed(t) && OnPath(t, p)
    ensures Formed(At(t, p))
    ensures Flat(t) == Pre(t, p) + Flat(At(t, p)) + Post(t, p)
  {
    if p != [] {
      var i, c := p[0], t.kids[p[0]];
      assert c in t.kids;
      ReadAt(c, p[1..]);
      FlatAround(t.keys, t.kids, i);
      Regroup(Before(t.keys, t.kids, i), Pre(c, p[1..]), Flat(At(c, p[1..])), Post(c, p[1..]),
              After(t.keys, t.kids, i));
    }
  }

  lemma {:induction false} LeavesAt(t: Tree, p: seq<nat>)
    requires OnPath(t, p)
    ensures Leaves(t) == LeavesBefore(t, p) + Leaves(At(t, p)) + LeavesAfter(t, p)
  {
    if p != [] {
      var i, c := p[0], t.kids[p[0]];
      LeavesAt(c, p[1..]);
      LeavesAround(t.kids, i);
      Regroup(LeavesOf(t.kids[..i]), LeavesBefore(c, p[1..]), Leaves(At(c, p[1..])), LeavesAfter(c, p[1..]),
              LeavesOf(t.kids[i + 1..]));
    }
  }

  /** Replacing the subtree at a position leaves everything around it alone. */
  lemma {:induction false} ReplaceAround(t: Tree, p: seq<nat>, s: Tree)
    requires OnPath(t, p)
    ensures OnPath(Replace(t, p, s), p) && At(Replace(t, p, s), p) == s
    ensures LeavesBefore(Replace(t, p, s), p) == LeavesBefore(t, p)
    ensures LeavesAfter(Replace(t, p, s), p) == LeavesAfter(t, p)
  {
    if p != [] {
      var i, c := p[0], t.kids[p[0]];
      ReplaceAround(c, p[1..], s);
      var cs' := t.kids[i := Replace(c, p[1..], s)];
      assert cs'[..i] == t.kids[..i] && cs'[i + 1..] == t.kids[i + 1..];
    }
  }

  lemma {:induction false} ReplaceReads(t: Tree, p: seq<nat>, s: Tree)
    requires Formed(t) && OnPath(t, p) && Formed(s)
    ensures OnPath(Replace(t, p, s), p) && Formed(Replace(t, p, s))
    ensures Pre(Replace(t, p, s), p) == Pre(t, p) && Post(Replace(t, p, s), p) == Post(t, p)
  {
    if p != [] {
      var i, c := p[0], t.kids[p[0]];
      assert c in t.kids;
      ReplaceReads(c, p[1..], s);
      var cs' := t.kids[i := Replace(c, p[1..], s)];
      assert cs'[..i] == t.kids[..i] && cs'[i + 1..] == t.kids[i + 1..];
    }
  }

  /** So replacing it changes only what is read there. */
  lemma ReplaceFlat(t: Tree, p: seq<nat>, s: Tree)
    requires Formed(t) && OnPath(t, p) && Formed(s)
    ensures Formed(Replace(t, p, s)) && OnPath(Replace(t, p, s), p)
    ensures Flat(Replace(t, p, s)) == Pre(t, p) + Flat(s) + Post(t, p)
    ensures Leaves(Replace(t, p, s)) == LeavesBefore(t, p) + Leaves(s) + LeavesAfter(t, p)
  {
    ReplaceAround(t, p, s);
    ReplaceReads(t, p, s);
    ReadAt(Replace(t, p, s), p);
    LeavesAt(Replace(t, p, s), p);
  }
}
