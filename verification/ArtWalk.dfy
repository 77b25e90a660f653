/** Descents through the radix tree: where a key leads, what becomes of a Set,
    and the order of the keys below a node. */
module ArtWalk {
  import opened Bytes
  import opened ArtNode
  import opened ArtPaths

  // ----- descents

  lemma ForeignLeaf(t: Tree, m: map<Key, Value>, p: Path, k: Key)
    requires Good(t, m, {}) && p in t.look && t.look[p].leaf.Leaf? && OnWay(p, k) && t.look[p].leaf.key != k
    ensures k !in m
  {
    hide Good;
    if k in m {
      LeafOnWay(t, m, {}, p, k);
    }
  }

  lemma KidPlace(t: Tree, m: map<Key, Value>, p: Path, b: byte)
    requires Good(t, m, {}) && p in t.look && t.look[p].leaf.NoLeaf? && b in t.look[p].kids
    ensures var q := Next(p, t.look[p], b); q in t.look && q in t.at && t.at[q] == t.look[p].kids[b]
  {
    hide LeavesOk, Nested, Complete;
    assert InnerOk(t, p, t.look[p], {});
  }

  lemma KidOnWay(p: Path, v: View, s: Path, b: byte)
    requires |p| + |v.prefix| < |s| && p + v.prefix <= s && s[|p| + |v.prefix|] == b
    ensures Next(p, v, b) <= s
  {
  }

  // ----- keys on which Set does not come back

  /** The way of a key leads to a node whose prefix is longer than what is left of the key. */
  ghost predicate BlockedAt(t: Tree, p: Path, k: Key) {
    p in t.look && t.look[p].leaf.NoLeaf? && p <= k && |p| + |t.look[p].prefix| > |k|
  }

  ghost predicate Blocked(t: Tree, k: Key) {
    exists p :: BlockedAt(t, p, k)
  }

  // ----- keys that cannot be told apart

  /** One key is the other with a byte 0 and perhaps more behind it. */
  predicate Overlap(a: Key, b: Key) {
    Term(a) <= b || Term(b) <= a
  }

  /** On the way of a key lies the leaf of a key it overlaps with, or an inner node where its own leaf should be. */
  ghost predicate ClashAt(t: Tree, p: Path, k: Key) {
    p in t.look && p <= Term(k) &&
    if t.look[p].leaf.Leaf? then t.look[p].leaf.key != k && Overlap(t.look[p].leaf.key, k) else p == Term(k)
  }

  ghost predicate Clashes(t: Tree, k: Key) {
    exists p :: ClashAt(t, p, k)
  }

  // ----- what a clash comes to

  /** There is an inner node where a Set expects the leaf of its key. */
  ghost predicate Panics(t: Tree, k: Key) {
    Term(k) in t.look && t.look[Term(k)].leaf.NoLeaf?
  }

  /** A key that meets the leaf of another at a path gets the same child byte. */
  predicate Doubles(p: Path, l: Key, k: Key) {
    if p <= l then Overlap(l, k) else ByteAt(k, |p|) == 0
  }

  /** The key meets a leaf, and the two get into one child. */
  ghost predicate LosesAt(t: Tree, p: Path, k: Key) {
    && p in t.look && p <= Term(k) && t.look[p].leaf.Leaf? && t.look[p].leaf.key != k
    && (p == Term(k) || Doubles(p, t.look[p].leaf.key, k))
  }

  ghost predicate Loses(t: Tree, k: Key) {
    exists p :: LosesAt(t, p, k)
  }

  /** The key meets a leaf that lies past the end of its own key, and leaves it behind one byte 0 more. */
  ghost predicate StraysAt(t: Tree, p: Path, k: Key) {
    && p in t.look && p <= k && t.look[p].leaf.Leaf? && t.look[p].leaf.key != k
    && !(p <= t.look[p].leaf.key) && ByteAt(k, |p|) != 0
  }

  ghost predicate Strays(t: Tree, k: Key) {
    exists p :: StraysAt(t, p, k)
  }

  /** Past the end of its key, the way of a key is that of all keys it overlaps with. */
  lemma PastEnd(p: Path, l: Key, k: Key)
    requires OnWay(p, l) && p <= Term(k) && l != k && !(p <= l)
    ensures Overlap(l, k)
  {
    OnWayWithin(p, l);
    assert Term(l) <= p;
    LongerTerm(l, k);
  }

  lemma LongerTerm(a: Key, b: Key)
    requires Term(a) <= Term(b)
    ensures a != b ==> Term(a) <= b
  {
    if |a| == |b| {
      assert a == Term(a)[..|a|] == Term(b)[..|a|] == b;
    } else {
      TermPrefix(Term(a), b);
    }
  }

  lemma ClashKinds(t: Tree, m: map<Key, Value>, p: Path, k: Key)
    requires LeavesOk(t, m)
    ensures ClashAt(t, p, k) <==> LosesAt(t, p, k) || StraysAt(t, p, k) || (p == Term(k) && Panics(t, k))
    ensures !(LosesAt(t, p, k) && StraysAt(t, p, k))
  {
    if p in t.look && p <= Term(k) && t.look[p].leaf.Leaf? && t.look[p].leaf.key != k {
      var l := t.look[p].leaf.key;
      assert LeafOk(p, t.look[p], m);
      assert |p| <= |k| || p == Term(k);
      if |p| <= |k| {
        TermPrefix(p, k);
      } else if p <= l {
        assert Overlap(l, k);
      }
      if !(p <= l) {
        PastEnd(p, l, k);
      }
    } else if p <= k {
      assert p <= Term(k);
    }
  }

  /** A clash is a panic, a lost key or a stray one, and only one of them. */
  lemma ClashesExactly(t: Tree, m: map<Key, Value>, k: Key)
    requires Good(t, m, {})
    ensures Clashes(t, k) <==> Panics(t, k) || Loses(t, k) || Strays(t, k)
  {
    hide ClashAt, LosesAt, StraysAt, Panics, LeavesOk;
    if Panics(t, k) {
      ClashKinds(t, m, Term(k), k);
    }
    forall p ensures ClashAt(t, p, k) <==> LosesAt(t, p, k) || StraysAt(t, p, k) || (p == Term(k) && Panics(t, k)) {
      ClashKinds(t, m, p, k);
    }
  }

  /** What becomes of a Set, at a node or in the end. */
  datatype Passage = Stuck | Panicked | Lost | Strayed | Stored | Passed

  ghost function Fate(t: Tree, k: Key): Passage {
    if Blocked(t, k) then Stuck
    else if Panics(t, k) then Panicked
    else if Loses(t, k) then Lost
    else if Strays(t, k) then Strayed
    else Stored
  }

  /** The way of a key ends at a node: there is nothing further on it. */
  ghost predicate EndsAt(t: Tree, p: Path, k: Key) {
    p in t.look && p <= Term(k) && (t.look[p].leaf.Leaf? || !Through(p, t.look[p], Term(k)))
  }

  /** Of two nodes on the way of a key at whose end the way ends, the other is above. */
  lemma OnWayAbove(t: Tree, p: Path, x: Path, k: Key)
    requires Nested(t) && EndsAt(t, p, k) && x in t.look && x <= Term(k) && x != p
    ensures x < p && t.look[x].leaf.NoLeaf? && |x| + |t.look[x].prefix| < |p|
  {
    Comparable(x, p, Term(k));
    assert NestedOk(x, t.look[x], p) && NestedOk(p, t.look[p], x);
    if p < x && t.look[p].leaf.NoLeaf? {
      ThroughExtends(p, t.look[p], x, Term(k));
    }
  }

  /** What becomes of a Set is decided at the node where the way of its key ends. */
  lemma DecidedAtEnd(t: Tree, p: Path, k: Key)
    requires Nested(t) && EndsAt(t, p, k)
    ensures Blocked(t, k) <==> BlockedAt(t, p, k)
    ensures Panics(t, k) <==> p == Term(k) && t.look[p].leaf.NoLeaf?
    ensures Loses(t, k) <==> LosesAt(t, p, k)
    ensures Strays(t, k) <==> StraysAt(t, p, k)
  {
    hide Nested, Doubles;
    forall x | x != p ensures !BlockedAt(t, x, k) && !LosesAt(t, x, k) && !StraysAt(t, x, k) {
      if x in t.look && x <= Term(k) {
        OnWayAbove(t, p, x, k);
      } else if x <= k {
        assert x <= Term(k);
      }
    }
    if Term(k) in t.look && p != Term(k) {
      OnWayAbove(t, p, Term(k), k);
    }
  }

  lemma StraysOnce(t: Tree, p: Path, q: Path, k: Key)
    requires Nested(t) && StraysAt(t, p, k) && StraysAt(t, q, k)
    ensures p == q
  {
    Comparable(p, q, k);
    assert NestedOk(p, t.look[p], q) && NestedOk(q, t.look[q], p);
  }

  // ----- the keys a tree has ever held

  /** Two of the keys begin so. */
  ghost predicate Common(w: Path, ever: set<Key>) {
    exists a, b :: a in ever && b in ever && a != b && w <= a && w <= b
  }

  /** A leaf holds one of the keys, an inner node lies inside one of them, and its prefix inside two. */
  ghost predicate KnownAt(p: Path, v: View, ever: set<Key>) {
    if v.leaf.Leaf? then v.leaf.key in ever
    else if v.prefix == [] then exists k :: k in ever && p <= k
    else Common(p + v.prefix, ever)
  }

  ghost predicate Known(t: Tree, ever: set<Key>) {
    forall p {:trigger KnownAt(p, t.look[p], ever)} :: p in t.look ==> KnownAt(p, t.look[p], ever)
  }

  /** No key is another one with a byte 0 and perhaps more behind it. */
  ghost predicate Separable(ks: set<Key>) {
    forall a, b :: a in ks && b in ks && a != b ==> !Overlap(a, b)
  }

  /** No key is shorter than what two of them share. */
  ghost predicate Roomy(ks: set<Key>) {
    forall w, k :: Common(w, ks) && k in ks ==> |w| <= |k|
  }

  ghost predicate OfLength(ks: set<Key>, len: nat) {
    forall k :: k in ks ==> |k| == len
  }

  lemma NulInside(a: Key, b: Key)
    requires Term(a) <= b
    ensures 0 in b
  {
    assert b[|a|] == Term(a)[|a|];
  }

  /** A key that can be told apart from all keys ever held does not clash. */
  lemma SeparableFree(t: Tree, m: map<Key, Value>, ever: set<Key>, k: Key)
    requires Good(t, m, {}) && Known(t, ever) && k in ever && Separable(ever)
    ensures !Clashes(t, k) && !Panics(t, k) && !Loses(t, k) && !Strays(t, k)
  {
    hide Clashes, Good, Panics, Loses, Strays;
    forall p ensures !ClashAt(t, p, k) {
      if p in t.look {
        assert KnownAt(p, t.look[p], ever);
        if t.look[p].leaf.NoLeaf? && p == Term(k) {
          var l := KnownInside(p, t.look[p], ever);
          InsideOverlaps(p, t.look[p].prefix, k, l);
        }
      }
    }
    NoneClash(t, k);
    ClashesExactly(t, m, k);
  }

  lemma InsideOverlaps(p: Path, x: seq<byte>, k: Key, l: Key)
    requires p == Term(k) && p <= p + x <= l
    ensures l != k && Overlap(k, l)
  {
  }

  lemma KnownInside(p: Path, v: View, ever: set<Key>) returns (k: Key)
    requires KnownAt(p, v, ever) && v.leaf.NoLeaf?
    ensures k in ever && p <= p + v.prefix <= k
  {
    if v.prefix == [] {
      k :| k in ever && p <= k;
      assert p + v.prefix == p;
    } else {
      var b;
      k, b :| k in ever && b in ever && k != b && p + v.prefix <= k && p + v.prefix <= b;
    }
  }

  lemma NoneClash(t: Tree, k: Key)
    requires forall p :: !ClashAt(t, p, k)
    ensures !Clashes(t, k)
  {
  }

  /** A Set gets stuck on none of the keys if none is shorter than what two of them share. */
  lemma RoomyFree(t: Tree, ever: set<Key>, k: Key)
    requires Known(t, ever) && k in ever && Roomy(ever)
    ensures !Blocked(t, k)
  {
    hide Blocked, Common;
    forall p ensures !BlockedAt(t, p, k) {
      if p in t.look && t.look[p].leaf.NoLeaf? {
        assert KnownAt(p, t.look[p], ever);
      }
    }
    NoneBlocked(t, k);
  }

  /** What can become of a Set of one of the keys. */
  lemma FateOfKnown(t: Tree, m: map<Key, Value>, ever: set<Key>, k: Key)
    requires Good(t, m, {}) && Known(t, ever) && k in ever
    ensures Separable(ever) ==> Fate(t, k) == Stored || Fate(t, k) == Stuck
    ensures Roomy(ever) ==> Fate(t, k) != Stuck
  {
    hide Good, Known, Clashes, Blocked, Panics, Loses, Strays, Separable, Roomy;
    if Separable(ever) {
      SeparableFree(t, m, ever, k);
    }
    if Roomy(ever) {
      RoomyFree(t, ever, k);
    }
  }

  /** Keys of one length have room for what they share, and can always be told apart. */
  lemma OneLengthFree(ks: set<Key>, len: nat)
    requires OfLength(ks, len)
    ensures Roomy(ks) && Separable(ks)
  {
  }

  lemma NoneBlocked(t: Tree, k: Key)
    requires forall x :: !BlockedAt(t, x, k)
    ensures !Blocked(t, k)
  {
  }

  /** Keys without the byte 0 can always be told apart. */
  lemma NulFreeSeparable(ks: set<Key>)
    requires forall k :: k in ks ==> 0 !in k
    ensures Separable(ks)
  {
    forall a, b | a in ks && b in ks && a != b ensures !Overlap(a, b) {
      if Term(a) <= b {
        NulInside(a, b);
      }
      if Term(b) <= a {
        NulInside(b, a);
      }
    }
  }

  lemma AddLeafKnown(t: Tree, p: Path, b: byte, n: Node, k: Key, value: Value, ever: set<Key>)
    requires Known(t, ever) && CanAddLeaf(t, p, b, n, k) && k in ever
    ensures Known(AddLeaf(t, p, b, n, k, value), ever)
  {
    var u := AddLeaf(t, p, b, n, k, value);
    forall x | x in u.look ensures KnownAt(x, u.look[x], ever) {
      if x in t.look {
        assert KnownAt(x, t.look[x], ever);
      }
    }
  }

  lemma SplitKnown(t: Tree, p: Path, u: seq<byte>, c: byte, n: Node, below: View, ever: set<Key>)
    requires Known(t, ever) && CanSplit(t, p, u, c, n, below) && KnownAt(p, View(u, NoLeaf, map[]), ever)
    ensures Known(Split(t, p, u, c, n, below), ever)
  {
    hide Common;
    var r, q := Split(t, p, u, c, n, below), p + u + [c];
    forall x | x in r.look ensures KnownAt(x, r.look[x], ever) {
      if x == q {
        SplitKnownBelow(t, p, u, c, n, below, ever);
      } else if x != p {
        assert KnownAt(x, t.look[x], ever);
      }
    }
  }

  lemma SplitKnownBelow(t: Tree, p: Path, u: seq<byte>, c: byte, n: Node, below: View, ever: set<Key>)
    requires Known(t, ever) && CanSplit(t, p, u, c, n, below)
    ensures KnownAt(p + u + [c], below, ever)
  {
    var q := p + u + [c];
    assert KnownAt(p, t.look[p], ever);
    if below.leaf.NoLeaf? {
      assert q + below.prefix == p + t.look[p].prefix;
      var k := KnownInside(p, t.look[p], ever);
      assert q <= q + below.prefix;
    }
  }

  // ----- the keys below a path

  ghost predicate LeafAt(t: Tree, q: Path, k: Key) {
    q in t.look && t.look[q].leaf.Leaf? && t.look[q].leaf.key == k
  }

  ghost predicate Under(t: Tree, p: Path, k: Key) {
    exists q :: LeafAt(t, q, k) && p <= q
  }

  lemma UnderTerm(t: Tree, m: map<Key, Value>, p: Path, k: Key)
    requires LeavesOk(t, m) && Under(t, p, k)
    ensures OnWay(p, k) && k in m
  {
    var q :| LeafAt(t, q, k) && p <= q;
    assert LeafOk(q, t.look[q], m);
  }

  lemma UnderLeaf(t: Tree, p: Path, k: Key)
    requires Nested(t) && p in t.look && t.look[p].leaf.Leaf?
    ensures Under(t, p, k) <==> k == t.look[p].leaf.key
  {
    if Under(t, p, k) {
      var q :| LeafAt(t, q, k) && p <= q;
      Comparable(p, q, q);
      assert NestedOk(p, t.look[p], q);
    } else {
      assert !LeafAt(t, p, k);
    }
  }

  /** What lies below an inner node lies below one of its children. */
  lemma UnderInner(t: Tree, p: Path, k: Key)
    requires Nested(t) && p in t.look && t.look[p].leaf.NoLeaf?
    ensures Under(t, p, k) <==> exists b :: b in t.look[p].kids && Under(t, Next(p, t.look[p], b), k)
  {
    hide Nested;
    if Under(t, p, k) {
      var b := UnderKid(t, p, k);
    }
    forall b | b in t.look[p].kids && Under(t, Next(p, t.look[p], b), k) ensures Under(t, p, k) {
      var q :| LeafAt(t, q, k) && Next(p, t.look[p], b) <= q;
      assert p <= Next(p, t.look[p], b);
    }
  }

  lemma UnderKid(t: Tree, p: Path, k: Key) returns (b: byte)
    requires Nested(t) && p in t.look && t.look[p].leaf.NoLeaf? && Under(t, p, k)
    ensures b in t.look[p].kids && Under(t, Next(p, t.look[p], b), k)
  {
    var v := t.look[p];
    var q :| LeafAt(t, q, k) && p <= q;
    assert NestedOk(p, v, q) && p != q;
    b := q[|p| + |v.prefix|];
    assert Next(p, v, b) <= q;
  }

  /** Keys part ways in the order of the bytes, the end of a key before every byte. */
  lemma {:induction false} WayLess(w: Path, a: byte, b: byte, k: Key, l: Key)
    requires OnWay(w + [a], k) && OnWay(w + [b], l) && a < b
    ensures Less(k, l)
  {
    assert (w + [a])[|w|] == a && (w + [b])[|w|] == b;
    assert |l| > |w|;
    if w != [] && k != [] {
      assert w[0] == (w + [a])[0] == (w + [b])[0];
      WayTail(w + [a], k);
      WayTail(w + [b], l);
      assert w[1..] + [a] == (w + [a])[1..] && w[1..] + [b] == (w + [b])[1..];
      WayLess(w[1..], a, b, k[1..], l[1..]);
    }
  }

  lemma WayTail(p: Path, k: Key)
    requires OnWay(p, k) && p != [] && k != []
    ensures OnWay(p[1..], k[1..]) && p[0] == k[0]
  {
    forall i | 0 <= i < |p| - 1 ensures p[1..][i] == ByteAt(k[1..], i) {
      assert p[i + 1] == ByteAt(k, i + 1);
    }
  }

  lemma KidsInOrder(t: Tree, m: map<Key, Value>, p: Path, a: byte, b: byte, k: Key, l: Key)
    requires LeavesOk(t, m) && p in t.look && a < b
    requires Under(t, Next(p, t.look[p], a), k) && Under(t, Next(p, t.look[p], b), l)
    ensures Less(k, l)
  {
    UnderTerm(t, m, Next(p, t.look[p], a), k);
    UnderTerm(t, m, Next(p, t.look[p], b), l);
    WayLess(p + t.look[p].prefix, a, b, k, l);
  }

  // ----- collecting child by child

  /** The keys wanted from the children done so far. */
  ghost predicate Gathered(t: Tree, p: Path, done: set<byte>, keep: Key -> bool, out: seq<Key>)
    requires p in t.look
  {
    && Ascending(out)
    && forall k :: k in out <==> keep(k) && exists b :: b in done && Under(t, Next(p, t.look[p], b), k)
  }

  lemma {:induction false} AscendingJoin(a: seq<Key>, b: seq<Key>)
    requires Ascending(a) && Ascending(b) && forall k, l :: k in a && l in b ==> Less(k, l)
    ensures Ascending(a + b)
  {
    var c := a + b;
    forall i, j | 0 <= i < j < |c| ensures Less(c[i], c[j]) {
      if i < |a| <= j {
        assert a[i] in a && b[j - |a|] in b;
      }
    }
  }

  lemma GatherStep(t: Tree, m: map<Key, Value>, p: Path, done: set<byte>, b: byte, keep: Key -> bool, out: seq<Key>,
                   more: seq<Key>)
    requires LeavesOk(t, m) && p in t.look && Gathered(t, p, done, keep, out) && forall a :: a in done ==> a < b
    requires Ascending(more) && forall k :: k in more <==> keep(k) && Under(t, Next(p, t.look[p], b), k)
    ensures Gathered(t, p, done + {b}, keep, out + more)
  {
    hide Under, LeavesOk, Less, Ascending;
    forall k, l | k in out && l in more ensures Less(k, l) {
      var a :| a in done && Under(t, Next(p, t.look[p], a), k);
      KidsInOrder(t, m, p, a, b, k, l);
    }
    AscendingJoin(out, more);
  }

  lemma GatherAll(t: Tree, p: Path, keep: Key -> bool, out: seq<Key>)
    requires Nested(t) && p in t.look && t.look[p].leaf.NoLeaf? && Gathered(t, p, t.look[p].kids.Keys, keep, out)
    ensures Ascending(out) && forall k :: k in out <==> keep(k) && Under(t, p, k)
  {
    hide Under, Nested, Ascending;
    forall k ensures k in out <==> keep(k) && Under(t, p, k) {
      UnderInner(t, p, k);
    }
  }

  // ----- prefix searches

  lemma UnderNode(t: Tree, m: map<Key, Value>, p: Path, k: Key)
    requires Good(t, m, {}) && p in t.look && t.look[p].leaf.NoLeaf?
    ensures Under(t, p, k) <==> k in m && OnWay(p, k)
  {
    hide Plain, InnersOk, LeavesOk, Complete, Placed;
    if Under(t, p, k) {
      UnderTerm(t, m, p, k);
    }
    if k in m && OnWay(p, k) {
      var q := LeafOf(t, m, k);
      OnWayOrdered(p, q, k);
      assert NestedOk(q, t.look[q], p);
      assert LeafAt(t, q, k) && p <= q;
    }
  }

  lemma PrefixOnWay(prefix: Key, k: Key)
    ensures prefix <= k <==> OnWay(prefix, k) && |prefix| <= |k|
  {
    if OnWay(prefix, k) {
      OnWayWithin(prefix, k);
    }
  }

  /** Below the inner node at this path lies a key that is shorter than the path. */
  ghost predicate Misled(t: Tree, prefix: Path) {
    prefix in t.look && t.look[prefix].leaf.NoLeaf? && exists k :: Under(t, prefix, k) && |k| < |prefix|
  }

  /** Every leaf lies on the way of its key or at the end of it. */
  ghost predicate Tame(t: Tree) {
    forall q :: q in t.look && t.look[q].leaf.Leaf? ==> |q| <= |t.look[q].leaf.key| + 1
  }

  lemma AddLeafTame(t: Tree, p: Path, b: byte, n: Node, k: Key, value: Value)
    requires Tame(t) && CanAddLeaf(t, p, b, n, k)
    ensures Tame(AddLeaf(t, p, b, n, k, value))
  {
  }

  lemma SplitTame(t: Tree, p: Path, u: seq<byte>, c: byte, n: Node, below: View)
    requires Tame(t) && CanSplit(t, p, u, c, n, below) && (below.leaf.Leaf? ==> |p| + |u| <= |below.leaf.key|)
    ensures Tame(Split(t, p, u, c, n, below))
  {
  }

  lemma SetValueTame(t: Tree, p: Path, value: Value)
    requires Tame(t) && p in t.look && t.look[p].leaf.Leaf?
    ensures Tame(SetValue(t, p, value))
  {
  }

  /** A key shorter than the path of an inner node above its leaf misleads the searches for that prefix. */
  lemma MisledBy(t: Tree, p: Path, q: Path, k: Key)
    requires p in t.look && t.look[p].leaf.NoLeaf? && LeafAt(t, q, k) && p <= q && |k| < |p|
    ensures Misled(t, p)
  {
    assert Under(t, p, k);
  }

  lemma TameHasNone(t: Tree, prefix: Path)
    requires Tame(t)
    ensures !Misled(t, prefix)
  {
    if Misled(t, prefix) {
      var k :| Under(t, prefix, k) && |k| < |prefix|;
      var q :| LeafAt(t, q, k) && prefix <= q;
      Comparable(prefix, q, q);
    }
  }

  /** A prefix that ends inside a node: all keys below the node have it, and no others. At the node, they have it
      unless they are shorter. */
  lemma PrefixInside(t: Tree, m: map<Key, Value>, p: Path, prefix: Key, k: Key)
    requires Good(t, m, {}) && p in t.look && t.look[p].leaf.NoLeaf?
    requires p <= prefix <= p + t.look[p].prefix
    ensures k in m && prefix <= k ==> Under(t, p, k)
    ensures Under(t, p, k) ==> k in m && (prefix <= k || (p == prefix && |k| < |prefix|))
    ensures p != prefix ==> prefix !in t.look
  {
    hide Good;
    var v := t.look[p];
    PrefixOnWay(prefix, k);
    UnderNode(t, m, p, k);
    if k in m && OnWay(prefix, k) {
      OnWayPrefix(p, prefix, k);
    }
    if Under(t, p, k) {
      Toward(t, m, {}, p, k);
      if v.prefix == [] {
        assert p + v.prefix == p;
      }
    }
    if p != prefix && prefix in t.look {
      NotBetween(t, m, p, prefix);
    }
  }

  lemma NotBetween(t: Tree, m: map<Key, Value>, p: Path, q: Path)
    requires Good(t, m, {}) && p in t.look && q in t.look && p < q
    ensures Through(p, t.look[p], q) && t.look[p].leaf.NoLeaf?
  {
    assert NestedOk(p, t.look[p], q);
  }

  /** A prefix that parts from the way of the node's keys: no key has it, and no node lies there. */
  lemma PrefixOutside(t: Tree, m: map<Key, Value>, p: Path, prefix: Key, k: Key)
    requires Good(t, m, {}) && p in t.look && t.look[p].leaf.NoLeaf? && p <= prefix
    requires !(prefix <= p + t.look[p].prefix) && !Through(p, t.look[p], prefix)
    ensures !(k in m && prefix <= k) && prefix !in t.look
  {
    hide Good;
    var w := p + t.look[p].prefix;
    if prefix in t.look {
      assert p != prefix;
      NotBetween(t, m, p, prefix);
    }
    if k in m && prefix <= k {
      PrefixOnWay(prefix, k);
      OnWayPrefix(p, prefix, k);
      Toward(t, m, {}, p, k);
      OnWayOrdered(w, prefix, k);
    }
  }

  /** A search for a prefix ends at one node only. */
  lemma StopsOnce(t: Tree, m: map<Key, Value>, p: Path, prefix: Key, q: Path)
    requires Good(t, m, {}) && p in t.look && p <= prefix
    requires t.look[p].leaf.Leaf? || prefix <= p + t.look[p].prefix || !Through(p, t.look[p], prefix)
    requires q in t.look && q <= prefix && (t.look[q].leaf.Leaf? || prefix == q + t.look[q].prefix)
    ensures p == q
  {
    Comparable(p, q, prefix);
    assert NestedOk(p, t.look[p], q) && NestedOk(q, t.look[q], p);
    if p < q && t.look[p].leaf.NoLeaf? {
      ThroughExtends(p, t.look[p], q, prefix);
    }
  }

  lemma PrefixAtLeaf(t: Tree, m: map<Key, Value>, p: Path, prefix: Key, k: Key)
    requires Good(t, m, {}) && p in t.look && t.look[p].leaf.Leaf? && p <= prefix
    ensures k in m && prefix <= k <==> k == t.look[p].leaf.key && prefix <= k
  {
    hide Good;
    LeafHere(t, m, p);
    if k in m && prefix <= k {
      PrefixOnWay(prefix, k);
      OnWayPrefix(p, prefix, k);
      LeafOnWay(t, m, {}, p, k);
    }
  }
}
