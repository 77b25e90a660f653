/** What a B+ tree keeps about its shape: order, balance, fill, one parent per node. */
module BPlusOrder {
  import opened Bytes
  import opened BPlusShape

  // ----- order along the flat reading

  /** `a` may stand left of `b`: keys and separators ascend strictly, except that a
      separator may equal the first key to its right. */
  ghost predicate Follows(a: Entry, b: Entry) {
    if a.Sep? && b.Item? then AtMost(a.k, b.k) else Less(a.k, b.k)
  }

  ghost predicate Sorted(es: seq<Entry>) {
    forall i, j :: 0 <= i < j < |es| ==> Follows(es[i], es[j])
  }

  /** Everything left of this position is below `key`, everything right of it above. */
  ghost predicate Brackets(pre: seq<Entry>, key: Key, post: seq<Entry>) {
    && (forall e :: e in pre ==> if e.Sep? then AtMost(e.k, key) else Less(e.k, key))
    && (forall e :: e in post ==> Less(key, e.k))
  }

  lemma SortedSplit(a: seq<Entry>, b: seq<Entry>)
    requires Sorted(a + b)
    ensures Sorted(a) && Sorted(b)
    ensures forall x, y :: x in a && y in b ==> Follows(x, y)
  {
    forall i, j | 0 <= i < j < |a| ensures Follows(a[i], a[j]) {
      assert (a + b)[i] == a[i] && (a + b)[j] == a[j];
    }
    forall i, j | 0 <= i < j < |b| ensures Follows(b[i], b[j]) {
      assert (a + b)[|a| + i] == b[i] && (a + b)[|a| + j] == b[j];
    }
    forall x, y | x in a && y in b ensures Follows(x, y) {
      var i :| 0 <= i < |a| && a[i] == x;
      var j :| 0 <= j < |b| && b[j] == y;
      assert (a + b)[i] == x && (a + b)[|a| + j] == y;
    }
  }

  lemma SortedJoin(a: seq<Entry>, b: seq<Entry>)
    requires Sorted(a) && Sorted(b)
    requires forall x, y :: x in a && y in b ==> Follows(x, y)
    ensures Sorted(a + b)
  {
    forall i, j | 0 <= i < j < |a + b| ensures Follows((a + b)[i], (a + b)[j]) {
      if i < |a| <= j { assert a[i] in a && b[j - |a|] in b; }
    }
  }

  /** One entry put between two parts of a sorted reading. */
  lemma SortedInsert(l: seq<Entry>, e: Entry, r: seq<Entry>)
    requires Sorted(l + r)
    requires forall x :: x in l ==> Follows(x, e)
    requires forall y :: y in r ==> Follows(e, y)
    ensures Sorted(l + [e] + r)
  {
    SortedSplit(l, r);
    SortedJoin(l, [e]);
    SortedJoin(l + [e], r);
  }

  lemma SepBefore(x: Entry, y: Entry)
    requires x.Item? && (x == y || Follows(x, y))
    ensures Follows(Sep(x.k), y)
  {
    LessIrreflexive(x.k);
    if x != y {
      Asymmetric(x.k, y.k);
    }
  }

  /** Splitting a leaf: the first key of the right part may be put before it as a separator. */
  lemma SortedSplitLeaf(pre: seq<Entry>, a: seq<Entry>, b: seq<Entry>, post: seq<Entry>)
    requires Sorted(pre + (a + b) + post)
    requires |a| > 0 && |b| > 0
    requires (forall e :: e in a ==> e.Item?) && (forall e :: e in b ==> e.Item?)
    ensures Sorted(pre + (a + [Sep(b[0].k)] + b) + post)
  {
    var l, r, s := pre + a, b + post, Sep(b[0].k);
    assert pre + (a + b) + post == l + r;
    SortedSplit(l, r);
    forall x | x in l ensures Follows(x, s) {
      assert Follows(x, b[0]);
      if x in pre && x.Sep? {
        assert a[0] in l && Follows(a[0], b[0]);
        assert l == pre + a;
        SortedSplit(pre, a);
        Between(x.k, a[0].k, b[0].k);
      }
    }
    forall y | y in r ensures Follows(s, y) {
      var j :| 0 <= j < |r| && r[j] == y;
      assert r[0] == b[0] && (j == 0 || Follows(r[0], r[j]));
      SepBefore(b[0], y);
    }
    SortedInsert(l, s, r);
    assert pre + (a + [s] + b) + post == l + [s] + r;
  }

  lemma Between(a: Key, b: Key, c: Key)
    ensures AtMost(a, b) && Less(b, c) ==> Less(a, c)
    ensures Less(a, b) && AtMost(b, c) ==> Less(a, c)
  {
    LessIsStrictTotalOrder();
  }

  lemma Asymmetric(a: Key, b: Key)
    requires Less(a, b)
    ensures !Less(b, a)
  {
    LessIsStrictTotalOrder();
  }

  /** Descending into the child right of every separator at most `key` keeps the key bracketed. */
  lemma BracketsStep(pre: seq<Entry>, post: seq<Entry>, ks: seq<Key>, cs: seq<Tree>, i: nat, key: Key)
    requires i < |cs| == |ks| + 1 && forall c :: c in cs ==> Formed(c)
    requires Sorted(pre + FlatKids(ks, cs) + post) && Brackets(pre, key, post)
    requires i > 0 ==> AtMost(ks[i - 1], key)
    requires i < |ks| ==> Less(key, ks[i])
    ensures Brackets(pre + Before(ks, cs, i), key, After(ks, cs, i) + post)
  {
    var b, a := Before(ks, cs, i), After(ks, cs, i);
    FlatAround(ks, cs, i);
    SortedSplit(pre + FlatKids(ks, cs), post);
    SortedSplit(pre, FlatKids(ks, cs));
    SortedSplit(b + Flat(cs[i]), a);
    SortedSplit(b, Flat(cs[i]));
    if i > 0 {
      var b' := FlatKids(ks[..i - 1], cs[..i]);
      SortedSplit(b', [Sep(ks[i - 1])]);
      forall e | e in b' ensures Less(e.k, key) && AtMost(e.k, key) {
        assert Follows(e, Sep(ks[i - 1]));
        Between(e.k, ks[i - 1], key);
        Asymmetric(e.k, key);
      }
    }
    if i < |ks| {
      var a' := FlatKids(ks[i + 1..], cs[i + 1..]);
      SortedSplit([Sep(ks[i])], a');
      forall e | e in a' ensures Less(key, e.k) {
        assert Sep(ks[i]) in [Sep(ks[i])] && Follows(Sep(ks[i]), e);
        LessIsStrictTotalOrder();
      }
    }
  }

  lemma {:induction false} SepIn(ks: seq<Key>, cs: seq<Tree>, i: nat)
    requires i < |ks| && |cs| == |ks| + 1 && forall c :: c in cs ==> Formed(c)
    ensures Sep(ks[i]) in FlatKids(ks, cs)
  {
    FlatAround(ks, cs, i);
  }

  /** The keys of every node on a sorted reading ascend. */
  lemma {:induction false} SeparatorsAscend(ks: seq<Key>, cs: seq<Tree>)
    requires |cs| == |ks| + 1 && forall c :: c in cs ==> Formed(c)
    requires Sorted(FlatKids(ks, cs))
    ensures Ascending(ks)
  {
    if ks != [] {
      var rest := FlatKids(ks[1..], cs[1..]);
      SortedSplit(Flat(cs[0]) + [Sep(ks[0])], rest);
      SeparatorsAscend(ks[1..], cs[1..]);
      forall i, j | 0 <= i < j < |ks| ensures Less(ks[i], ks[j]) {
        if i == 0 {
          SepIn(ks[1..], cs[1..], j - 1);
          assert Sep(ks[0]) in Flat(cs[0]) + [Sep(ks[0])];
          assert Follows(Sep(ks[0]), Sep(ks[j]));
        } else {
          assert ks[1..][i - 1] == ks[i] && ks[1..][j - 1] == ks[j];
        }
      }
    }
  }

  lemma SortedAt(t: Tree, p: seq<nat>)
    requires Formed(t) && Sorted(Flat(t)) && OnPath(t, p)
    ensures Formed(At(t, p)) && Sorted(Flat(At(t, p)))
  {
    ReadAt(t, p);
    SortedSplit(Pre(t, p) + Flat(At(t, p)), Post(t, p));
    SortedSplit(Pre(t, p), Flat(At(t, p)));
  }

  lemma KeysAscend(t: Tree)
    requires Formed(t) && Sorted(Flat(t))
    ensures Ascending(t.keys)
  {
    match t
    case Internal(_, ks, cs) => SeparatorsAscend(ks, cs);
    case Leaf(_, ks, vs) =>
      forall i, j | 0 <= i < j < |ks| ensures Less(ks[i], ks[j]) {
        assert Follows(Items(ks, vs)[i], Items(ks, vs)[j]);
      }
  }

  // ----- balance and fill

  ghost predicate Sized(ks: seq<Key>, cs: seq<Tree>, dense: bool, root: bool) {
    1 <= |ks| < ORDER && |cs| == |ks| + 1 && (dense && !root ==> MID <= |cs|)
  }

  /** `t` has all its leaves `h` levels down, no overfull node, and, when `dense`,
      at least half-full nodes below the root. */
  ghost predicate Ok(t: Tree, h: nat, dense: bool, root: bool) {
    match t
    case Leaf(_, ks, vs) => h == 0 && |vs| == |ks| < ORDER && (dense && !root ==> MID <= |ks|)
    case Internal(_, ks, cs) =>
      h > 0 && Sized(ks, cs, dense, root) && forall i :: 0 <= i < |cs| ==> Ok(cs[i], h - 1, dense, false)
  }

  /** The same of everything but the subtree at `p`. */
  ghost predicate OkElsewhere(t: Tree, p: seq<nat>, h: nat, dense: bool, root: bool)
    requires OnPath(t, p)
  {
    p != [] ==>
      && h > 0 && Sized(t.keys, t.kids, dense, root)
      && (forall i :: 0 <= i < |t.kids| && i != p[0] ==> Ok(t.kids[i], h - 1, dense, false))
      && OkElsewhere(t.kids[p[0]], p[1..], h - 1, dense, false)
  }

  lemma {:induction false} OkFormed(t: Tree, h: nat, dense: bool, root: bool)
    requires Ok(t, h, dense, root)
    ensures Formed(t)
  {
    if t.Internal? {
      forall c | c in t.kids ensures Formed(c) {
        OkFormed(c, h - 1, dense, false);
      }
    }
  }

  lemma {:induction false} OkAt(t: Tree, p: seq<nat>, h: nat, dense: bool, root: bool)
    requires Ok(t, h, dense, root) && OnPath(t, p)
    ensures |p| <= h && OkElsewhere(t, p, h, dense, root)
    ensures Ok(At(t, p), h - |p|, dense, root && p == [])
  {
    if p != [] {
      OkAt(t.kids[p[0]], p[1..], h - 1, dense, false);
    }
  }

  lemma {:induction false} OkReplace(t: Tree, p: seq<nat>, s: Tree, h: nat, dense: bool, root: bool)
    requires OnPath(t, p) && OkElsewhere(t, p, h, dense, root) && |p| <= h
    ensures OnPath(Replace(t, p, s), p) && OkElsewhere(Replace(t, p, s), p, h, dense, root)
    ensures Ok(s, h - |p|, dense, root && p == []) ==> Ok(Replace(t, p, s), h, dense, root)
  {
    if p != [] {
      OkReplace(t.kids[p[0]], p[1..], s, h - 1, dense, false);
    }
  }

  // ----- node identities

  lemma {:induction false} NodesAt(t: Tree, p: seq<nat>)
    requires OnPath(t, p)
    ensures At(t, p).node in Nodes(At(t, p)) && Nodes(At(t, p)) <= Nodes(t)
    ensures Distinct(t) ==> Distinct(At(t, p))
  {
    if p != [] {
      assert t.kids[p[0]] in t.kids;
      NodesAt(t.kids[p[0]], p[1..]);
    }
  }

  /** A node is met at one position only. */
  lemma {:induction false} PathUnique(t: Tree, p: seq<nat>, q: seq<nat>)
    requires Distinct(t) && OnPath(t, p) && OnPath(t, q) && At(t, p).node == At(t, q).node
    ensures p == q
  {
    if p != [] { NodesAt(t.kids[p[0]], p[1..]); }
    if q != [] { NodesAt(t.kids[q[0]], q[1..]); }
    if p != [] && q != [] {
      assert p[0] == q[0];
      PathUnique(t.kids[p[0]], p[1..], q[1..]);
      assert p == [p[0]] + p[1..] && q == [q[0]] + q[1..];
    }
  }

  lemma {:induction false} ReplaceNodes(t: Tree, p: seq<nat>, s: Tree)
    requires OnPath(t, p) && Distinct(t) && Distinct(s)
    requires Nodes(s) !! Nodes(t) - Nodes(At(t, p))
    ensures Nodes(Replace(t, p, s)) == Nodes(t) - Nodes(At(t, p)) + Nodes(s)
    ensures Distinct(Replace(t, p, s))
  {
    if p != [] {
      var i, c := p[0], t.kids[p[0]];
      var c' := Replace(c, p[1..], s);
      assert Nodes(At(c, p[1..])) <= Nodes(c) by { NodesAt(c, p[1..]); }
      assert Nodes(c) <= Nodes(t) by { assert c in t.kids; }
      ReplaceNodes(c, p[1..], s);
      ReplaceKidNodes(t, i, c');
    }
  }

  lemma ReplaceKidNodes(t: Tree, i: nat, c': Tree)
    requires t.Internal? && i < |t.kids| && Distinct(t) && Distinct(c')
    requires Nodes(c') !! Nodes(t) - Nodes(t.kids[i])
    ensures Nodes(Internal(t.node, t.keys, t.kids[i := c'])) == Nodes(t) - Nodes(t.kids[i]) + Nodes(c')
    ensures Distinct(Internal(t.node, t.keys, t.kids[i := c']))
  {
    var t' := Internal(t.node, t.keys, t.kids[i := c']);
    assert t'.kids[i] == c' && forall j :: 0 <= j < |t.kids| && j != i ==> t'.kids[j] == t.kids[j];
    forall j | 0 <= j < |t.kids| ensures Nodes(t.kids[j]) <= Nodes(t) {
      assert t.kids[j] in t.kids;
    }
    forall n | n in Nodes(t) - Nodes(t.kids[i]) ensures n in Nodes(t') {
      if n != t.node {
        var c :| c in t.kids && n in Nodes(c);
        var j :| 0 <= j < |t.kids| && t.kids[j] == c;
        assert t'.kids[j] in t'.kids;
      }
    }
    assert c' in t'.kids;
  }

  // ----- the next position down

  lemma {:induction false} PathStep(t: Tree, p: seq<nat>, i: nat)
    requires OnPath(t, p) && At(t, p).Internal? && i < |At(t, p).kids|
    ensures OnPath(t, p + [i]) && At(t, p + [i]) == At(t, p).kids[i]
    ensures LeavesBefore(t, p + [i]) == LeavesBefore(t, p) + LeavesOf(At(t, p).kids[..i])
    ensures LeavesAfter(t, p + [i]) == LeavesOf(At(t, p).kids[i + 1..]) + LeavesAfter(t, p)
  {
    if p != [] {
      assert (p + [i])[1..] == p[1..] + [i];
      PathStep(t.kids[p[0]], p[1..], i);
    }
  }

  lemma {:induction false} ReadStep(t: Tree, p: seq<nat>, i: nat)
    requires OnPath(t, p) && At(t, p).Internal? && i < |At(t, p).kids|
    requires Formed(t)
    ensures OnPath(t, p + [i]) && Formed(At(t, p))
    ensures Pre(t, p + [i]) == Pre(t, p) + Before(At(t, p).keys, At(t, p).kids, i)
    ensures Post(t, p + [i]) == After(At(t, p).keys, At(t, p).kids, i) + Post(t, p)
  {
    hide Before, After, Flat, FlatKids;
    PathStep(t, p, i);
    if p != [] {
      assert (p + [i])[1..] == p[1..] + [i];
      assert t.kids[p[0]] in t.kids;
      ReadStep(t.kids[p[0]], p[1..], i);
    }
  }

  // ----- attaching a right sibling to a parent, and halving an overfull node

  /** The node `t` with `r` attached right after its child `i`, separated from it by `k`. */
  ghost function Attach(t: Tree, i: nat, k: Key, r: Tree): Tree
    requires t.Internal? && i < |t.kids| == |t.keys| + 1
  {
    Internal(t.node, t.keys[..i] + [k] + t.keys[i..], t.kids[..i + 1] + [r] + t.kids[i + 1..])
  }

  lemma AttachLeft(ks: seq<Key>, cs: seq<Tree>, i: nat)
    requires i < |cs| == |ks| + 1 && forall c :: c in cs ==> Formed(c)
    ensures FlatKids(ks[..i], cs[..i + 1]) == Before(ks, cs, i) + Flat(cs[i])
  {
    var l, ls := ks[..i], cs[..i + 1];
    FlatUpTo(l, ls, i);
    assert l[i..] == [] && ls[i..] == [cs[i]];
    if i > 0 { assert l[..i - 1] == ks[..i - 1] && ls[..i] == cs[..i]; }
  }

  lemma AttachRight(ks: seq<Key>, cs: seq<Tree>, i: nat, r: Tree)
    requires i < |cs| == |ks| + 1 && (forall c :: c in cs ==> Formed(c)) && Formed(r)
    ensures forall c :: c in [r] + cs[i + 1..] ==> Formed(c)
    ensures FlatKids(ks[i..], [r] + cs[i + 1..]) == Flat(r) + After(ks, cs, i)
  {
    if i < |ks| {
      assert ks[i..][1..] == ks[i + 1..] && ([r] + cs[i + 1..])[1..] == cs[i + 1..];
      Associate(Flat(r), [Sep(ks[i])], FlatKids(ks[i + 1..], cs[i + 1..]));
    }
  }

  lemma AttachReads(t: Tree, i: nat, k: Key, r: Tree)
    requires t.Internal? && Formed(t) && i < |t.kids| && Formed(r)
    ensures Formed(Attach(t, i, k, r))
    ensures Flat(Attach(t, i, k, r)) ==
            Before(t.keys, t.kids, i) + (Flat(t.kids[i]) + [Sep(k)] + Flat(r)) + After(t.keys, t.kids, i)
  {
    var ks, cs := t.keys, t.kids;
    AttachLeft(ks, cs, i);
    AttachRight(ks, cs, i, r);
    FlatJoin(ks[..i], cs[..i + 1], k, ks[i..], [r] + cs[i + 1..]);
    assert cs[..i + 1] + [r] + cs[i + 1..] == cs[..i + 1] + ([r] + cs[i + 1..]);
    Regroup(Before(ks, cs, i), Flat(cs[i]), [Sep(k)], Flat(r), After(ks, cs, i));
  }

  lemma AttachLeaves(t: Tree, i: nat, k: Key, r: Tree)
    requires t.Internal? && i < |t.kids| == |t.keys| + 1
    ensures Leaves(Attach(t, i, k, r)) ==
            LeavesOf(t.kids[..i]) + (Leaves(t.kids[i]) + Leaves(r)) + LeavesOf(t.kids[i + 1..])
  {
    var cs := t.kids;
    var ls, qs := cs[..i + 1], [r] + cs[i + 1..];
    assert Attach(t, i, k, r).kids == ls + qs;
    LeavesJoin(ls, qs);
    LeavesAround(ls, i);
    assert ls[..i] == cs[..i] && ls[i + 1..] == [] && qs[1..] == cs[i + 1..];
  }

  lemma ApartInsert(ss: seq<set<Node>>, i: nat, x: set<Node>)
    requires Apart(ss) && i <= |ss| && forall j :: 0 <= j < |ss| ==> ss[j] !! x
    ensures Apart(ss[..i] + [x] + ss[i..])
  {
  }

  lemma AttachDistinct(t: Tree, i: nat, k: Key, r: Tree)
    requires t.Internal? && i < |t.kids| == |t.keys| + 1 && Distinct(t) && Distinct(r) && Nodes(t) !! Nodes(r)
    ensures Distinct(Attach(t, i, k, r))
  {
    hide Nodes, Distinct;
    var a := Attach(t, i, k, r);
    var cs, ss := a.kids, NodeSets(t.kids);
    RootInNodes(t);
    DistinctParts(t);
    KidNodes(t);
    ApartInsert(ss, i + 1, Nodes(r));
    assert NodeSets(cs) == ss[..i + 1] + [Nodes(r)] + ss[i + 1..];
    forall j | 0 <= j < |cs| ensures t.node !in Nodes(cs[j]) && Distinct(cs[j]) {
      assert cs[j] == if j <= i then t.kids[j] else if j == i + 1 then r else t.kids[j - 1];
    }
    DistinctFrom(a);
  }

  lemma RootInNodes(t: Tree)
    ensures t.node in Nodes(t)
  {
  }

  lemma DistinctParts(t: Tree)
    requires t.Internal? && Distinct(t)
    ensures Apart(NodeSets(t.kids))
    ensures forall i :: 0 <= i < |t.kids| ==> t.node !in Nodes(t.kids[i]) && Distinct(t.kids[i])
  {
  }

  lemma DistinctFrom(t: Tree)
    requires t.Internal? && Apart(NodeSets(t.kids))
    requires forall i :: 0 <= i < |t.kids| ==> t.node !in Nodes(t.kids[i]) && Distinct(t.kids[i])
    ensures Distinct(t)
  {
  }

  lemma KidNodes(t: Tree)
    requires t.Internal?
    ensures forall j :: 0 <= j < |t.kids| ==> Nodes(t.kids[j]) <= Nodes(t)
  {
    forall j | 0 <= j < |t.kids| ensures Nodes(t.kids[j]) <= Nodes(t) {
      assert t.kids[j] in t.kids;
    }
  }

  lemma AttachNodes(t: Tree, i: nat, k: Key, r: Tree)
    requires t.Internal? && i < |t.kids| == |t.keys| + 1
    ensures Nodes(Attach(t, i, k, r)) == Nodes(t) + Nodes(r)
  {
    var cs := Attach(t, i, k, r).kids;
    assert cs[i + 1] == r;
    forall c ensures c in cs <==> c in t.kids || c == r {
      assert t.kids == t.kids[..i + 1] + t.kids[i + 1..];
    }
  }

  /** The two halves of an overfull internal node; the right one becomes the node `n`. */
  ghost function LeftHalf(t: Tree): Tree
    requires t.Internal? && |t.kids| == |t.keys| + 1 && |t.keys| == ORDER
  {
    Internal(t.node, t.keys[..MID], t.kids[..MID + 1])
  }

  ghost function RightHalf(t: Tree, n: Node): Tree
    requires t.Internal? && |t.kids| == |t.keys| + 1 && |t.keys| == ORDER
  {
    Internal(n, t.keys[MID + 1..], t.kids[MID + 1..])
  }

  lemma HalvesRead(t: Tree, n: Node)
    requires t.Internal? && Formed(t) && |t.keys| == ORDER
    ensures Formed(LeftHalf(t)) && Formed(RightHalf(t, n))
    ensures Flat(t) == Flat(LeftHalf(t)) + [Sep(t.keys[MID])] + Flat(RightHalf(t, n))
    ensures Leaves(t) == Leaves(LeftHalf(t)) + Leaves(RightHalf(t, n))
  {
    var l, r := LeftHalf(t), RightHalf(t, n);
    FlatJoin(l.keys, l.kids, t.keys[MID], r.keys, r.kids);
    LeavesJoin(l.kids, r.kids);
    assert t.keys == l.keys + [t.keys[MID]] + r.keys && t.kids == l.kids + r.kids;
  }

  lemma HalvesDistinct(t: Tree, n: Node)
    requires t.Internal? && |t.kids| == |t.keys| + 1 && |t.keys| == ORDER && Distinct(t) && n !in Nodes(t)
    ensures Distinct(LeftHalf(t)) && Distinct(RightHalf(t, n))
    ensures Nodes(LeftHalf(t)) !! Nodes(RightHalf(t, n))
  {
    hide Distinct;
    var l, r := LeftHalf(t), RightHalf(t, n);
    DistinctParts(t);
    KidNodes(t);
    HalvesApart(t, n);
    assert forall j :: 0 <= j < |l.kids| ==> l.kids[j] == t.kids[j];
    assert forall j :: 0 <= j < |r.kids| ==> r.kids[j] == t.kids[MID + 1 + j];
    DistinctFrom(l);
    DistinctFrom(r);
  }

  lemma HalvesApart(t: Tree, n: Node)
    requires t.Internal? && |t.kids| == |t.keys| + 1 && |t.keys| == ORDER && Apart(NodeSets(t.kids))
    ensures Apart(NodeSets(LeftHalf(t).kids)) && Apart(NodeSets(RightHalf(t, n).kids))
  {
    hide Nodes;
    var ss, l, r := NodeSets(t.kids), NodeSets(LeftHalf(t).kids), NodeSets(RightHalf(t, n).kids);
    assert l == ss[..MID + 1] && r == ss[MID + 1..];
  }

  lemma HalvesNodes(t: Tree, n: Node)
    requires t.Internal? && |t.kids| == |t.keys| + 1 && |t.keys| == ORDER
    ensures Nodes(LeftHalf(t)) + Nodes(RightHalf(t, n)) == Nodes(t) + {n}
  {
    forall c ensures c in t.kids <==> c in LeftHalf(t).kids || c in RightHalf(t, n).kids {
      assert t.kids == LeftHalf(t).kids + RightHalf(t, n).kids;
    }
  }
}
