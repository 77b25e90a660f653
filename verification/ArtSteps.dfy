/** The steps of the radix tree store on its nodes, and what its descents know at each node. */
module ArtSteps {
  import opened Bytes
  import opened ArtNode
  import opened ArtPaths
  import opened ArtWalk

  ghost predicate AllProper(at: map<Path, Node>)
    reads at.Values
  {
    forall p :: p in at ==> at[p].Proper()
  }

  /** No inner node has an empty list of children, and no byte has two. */
  ghost predicate Tidy(at: map<Path, Node>)
    reads at.Values
  {
    forall p :: p in at ==> at[p].Single() && (at[p].leaf.NoLeaf? ==> !at[p].Bare())
  }

  ghost function Looks(at: map<Path, Node>): map<Path, View>
    requires AllProper(at)
    reads at.Values
  {
    map p | p in at :: at[p].Look()
  }

  /** The bytes two keys share are all of these. */
  ghost predicate Shared(u: seq<byte>, a: Key, b: Key) {
    u <= a && u <= b && (|u| < |a| && |u| < |b| ==> a[|u|] != b[|u|])
  }

  /** The number of bytes two keys share from a position on; none past the end of one of them. */
  method Lcp(a: Key, b: Key, start: nat) returns (n: nat)
    ensures start > |a| || start > |b| ==> n == 0
    ensures start <= |a| && start <= |b| ==>
              && start + n <= |a| && start + n <= |b| && a[start..start + n] == b[start..start + n]
              && (start + n < |a| && start + n < |b| ==> a[start + n] != b[start + n])
  {
    var limit := (if |a| < |b| then |a| else |b|) - start;
    if limit <= 0 {
      return 0;
    }
    n := 0;
    while n < limit && a[start + n] == b[start + n]
      invariant n <= limit && a[start..start + n] == b[start..start + n]
    {
      assert a[start..start + n + 1] == a[start..start + n] + [a[start + n]];
      assert b[start..start + n + 1] == b[start..start + n] + [b[start + n]];
      n := n + 1;
    }
  }

  /** Every child that is not the first under its byte is this leaf. */
  ghost predicate Twins(at: map<Path, Node>, twin: Node?)
    reads at.Values, if twin == null then {} else {twin}
  {
    forall p :: p in at ==> at[p].Single() || (twin != null && twin.leaf.Leaf? && at[p].Hides(twin))
  }

  /** The node takes no notice of a second child under the byte. */
  ghost predicate Ignores(n: Node, b: byte)
    requires n.Proper()
    reads n
  {
    b in n.Kids() && n.kind == NODE16 && |n.keys| == 15
  }

  /** Adds a child to a node and gives it its place, which may be that of a leaf. */
  method HangChild(ghost at: map<Path, Node>, n: Node, ghost p: Path, b: byte, c: Node, ghost q: Path)
    requires AllProper(at) && p in at && at[p] == n && (forall x :: x in at && x != p ==> at[x] != n)
    requires n.leaf.NoLeaf? && c.Proper() && c !in at.Values && p != q
    requires if b in n.Kids() then q in at && at[q] == n.Kids()[b] && at[q].leaf.Leaf? else q !in at
    requires Tidy(at) && c.Single() && (c.leaf.NoLeaf? ==> !c.Bare())
    modifies n
    ensures AllProper(at[q := c]) && n.prefix == old(n.prefix) && n.leaf == old(n.leaf)
    ensures b in old(n.Kids()) && old(Ignores(n, b)) ==> AllProper(at) && Tidy(at) && Looks(at) == old(Looks(at))
    ensures b !in old(n.Kids()) || !old(Ignores(n, b)) ==>
              Looks(at[q := c]) ==
              old(Looks(at))[p := old(n.Look()).(kids := old(n.Kids())[b := c])][q := old(c.Look())]
    ensures b !in old(n.Kids()) || !n.Small() ==> Tidy(at[q := c])
    ensures b in old(n.Kids()) ==> Twins(at[q := c], at[q])
    ensures n.Small() && b in old(n.Kids()) ==> n.Twin(c, at[q])
  {
    hide Node.Proper, Node.Kids, Node.Joined, Node.Single, Node.Hides, Node.Twin;
    JoinedSingle(n, b, c) by { TidyAt(at, p); }
    if Ignores(n, b) {
      PairedShape(n);
    }
    n.AddChild(b, c);
  }

  /** Makes a node an inner one whose only child is the given node. */
  method Hoist(ghost at: map<Path, Node>, n: Node, ghost p: Path, u: seq<byte>, c: byte, nn: Node, ghost q: Path)
    requires AllProper(at) && p in at && at[p] == n && (forall x :: x in at && x != p ==> at[x] != n)
    requires nn.Proper() && nn.Single() && nn !in at.Values && q !in at && Tidy(at) && (nn.leaf.NoLeaf? ==> !nn.Bare())
    modifies n
    ensures AllProper(at[q := nn]) && Tidy(at[q := nn]) && n.Proper() && n.Look() == View(u, NoLeaf, map[c := nn])
    ensures Looks(at[q := nn]) == old(Looks(at))[p := View(u, NoLeaf, map[c := nn])][q := old(nn.Look())]
  {
    hide Node.Proper, Node.Kids, Node.Joined, Node.Single;
    n.Clear(u);
    JoinedSingle(n, c, nn);
    n.AddChild(c, nn);
  }

  method Relabel(ghost at: map<Path, Node>, n: Node, ghost p: Path, value: Value)
    requires AllProper(at) && Tidy(at) && p in at && at[p] == n && n.leaf.Leaf?
    requires forall x :: x in at && x != p ==> at[x] != n
    modifies n
    ensures AllProper(at) && Tidy(at) && n.leaf == Leaf(old(n.leaf.key), value)
    ensures Looks(at) == old(Looks(at))[p := old(n.Look()).(leaf := Leaf(old(n.leaf.key), value))]
  {
    n.leaf := Leaf(n.leaf.key, value);
  }

  lemma PrefixParts(p: Path, v: View, u: seq<byte>, c: byte, rest: seq<byte>, key: Key, b: byte)
    requires p <= key && |p| + |v.prefix| <= |key|
    requires |u| < |v.prefix| && u == v.prefix[..|u|] && c == v.prefix[|u|] && rest == v.prefix[|u| + 1..]
    requires key[|p|..|p| + |u|] == u && b == key[|p| + |u|]
    ensures v.prefix == u + [c] + rest && p + u + [b] <= Term(key)
    ensures p + u < p + v.prefix
  {
    assert key[..|p| + |u|] == p + u;
  }

  /** What the two keys of a split leaf share from its place on, as the source counts it. */
  ghost predicate Counted(p: Path, first: Key, key: Key, len: nat) {
    && (|p| > |first| || |p| > |key| ==> len == 0)
    && (|p| <= |first| && |p| <= |key| ==>
          && |p| + len <= |first| && |p| + len <= |key| && first[|p|..|p| + len] == key[|p|..|p| + len]
          && (|p| + len < |first| && |p| + len < |key| ==> first[|p| + len] != key[|p| + len]))
  }

  /** The child bytes of a leaf and of the key that splits it differ, if and only if the two do not double. */
  lemma PartsExactly(p: Path, first: Key, key: Key, len: nat)
    requires OnWay(p, first) && p <= key && first != key && Counted(p, first, key, len)
    ensures ByteAt(first, |p| + len) != ByteAt(key, |p| + len) <==> !Doubles(p, first, key)
  {
    var n := |p| + len;
    if |p| <= |first| {
      OnWayWithin(p, first);
      assert first[..n] == p + first[|p|..n] && key[..n] == p + key[|p|..n];
      assert first == first[..n] + first[n..] && key == key[..n] + key[n..];
      SharedDoubles(first, key, n);
    }
  }

  lemma SharedDoubles(a: Key, b: Key, n: nat)
    requires a != b && n <= |a| && n <= |b| && a[..n] == b[..n]
    requires n < |a| && n < |b| ==> a[n] != b[n]
    ensures ByteAt(a, n) != ByteAt(b, n) <==> !Overlap(a, b)
  {
    assert Term(a)[|a|] == 0 && Term(b)[|b|] == 0;
    assert a == a[..n] + a[n..] && b == b[..n] + b[n..];
    if n == |a| {
      assert Term(a) <= b <==> n < |b| && b[n] == 0;
    }
    if n == |b| {
      assert Term(b) <= a <==> n < |a| && a[n] == 0;
    }
  }

  lemma Parting(p: Path, first: Key, key: Key, len: nat, u: seq<byte>, c: byte, b: byte)
    requires OnWay(p, first) && p <= key && first != key && Counted(p, first, key, len)
    requires len == 0 ==> u == []
    requires len > 0 ==> |p| <= |first| && |p| + len <= |first| && u == first[|p|..|p| + len]
    requires c == ByteAt(first, |p| + len) && b == ByteAt(key, |p| + len)
    ensures OnWay(p + u + [c], first) && OnWay(p + u + [b], key) && (b == c <==> Doubles(p, first, key))
    ensures |u| == len && p + u <= key && (p <= first ==> Shared(p + u, first, key))
  {
    var w := p + u;
    PartsExactly(p, first, key, len);
    if |p| <= |first| {
      OnWayWithin(p, first);
      assert first[..|w|] == w && key[..|w|] == w;
    } else {
      assert w == p;
    }
    PrefixIsOnWay(w, key);
    WayAppend(w, c, first);
    WayAppend(w, b, key);
  }

  lemma RootOnWay(k: Key)
    ensures OnWay([], k)
  {
  }

  /** The bytes a leaf and the key that splits it share from its place on, and their child bytes. */
  method PartAt(ghost p: Path, first: Key, key: Key, depth: nat) returns (u: seq<byte>, c: byte, b: byte)
    requires OnWay(p, first) && p <= key && first != key && depth == |p|
    ensures OnWay(p + u + [c], first) && OnWay(p + u + [b], key) && |p| + |u| <= |key| && p + u <= key
    ensures (b == c <==> Doubles(p, first, key)) && (b == c ==> Overlap(first, key))
    ensures (p <= first <==> |p| <= |first|) && (p <= first ==> Shared(p + u, first, key))
    ensures u != [] || p <= first ==> |p| + |u| <= |first| && p + u <= first
  {
    hide OnWay, Doubles, Overlap;
    var len := Lcp(first, key, depth);
    u := if len > 0 then first[depth..depth + len] else [];
    c := if depth + len < |first| then first[depth + len] else 0;
    b := if depth + len < |key| then key[depth + len] else 0;
    Parting(p, first, key, len, u, c, b);
    DoublesOverlap(p, first, key);
  }

  lemma PrefixIsOnWay(w: Path, k: Key)
    requires w <= k
    ensures OnWay(w, k)
  {
  }

  lemma WayAppend(w: Path, b: byte, k: Key)
    requires OnWay(w, k) && b == ByteAt(k, |w|)
    ensures OnWay(w + [b], k)
  {
  }

  lemma LeafSplits(t: Tree, p: Path, u: seq<byte>, c: byte, n: Node, below: View)
    requires p in t.look && n !in t.at.Values && t.look[p].leaf.Leaf?
    requires below == t.look[p] && OnWay(p + u + [c], below.leaf.key) && (u != [] ==> |p| + |u| <= |below.leaf.key|)
    ensures CanSplit(t, p, u, c, n, below)
  {
  }

  /** How far a prefix agrees with the rest of a key. */
  method Mismatch(prefix: seq<byte>, key: Key, depth: nat) returns (m: nat)
    requires depth + |prefix| <= |key|
    ensures m <= |prefix| && key[depth..depth + m] == prefix[..m] && (m < |prefix| ==> key[depth + m] != prefix[m])
  {
    m := 0;
    while m < |prefix| && depth + m < |key| && prefix[m] == key[depth + m]
      invariant m <= |prefix| && key[depth..depth + m] == prefix[..m]
    {
      assert key[depth..depth + m + 1] == key[depth..depth + m] + [key[depth + m]];
      assert prefix[..m + 1] == prefix[..m] + [prefix[m]];
      m := m + 1;
    }
  }

  /** What becomes of a Set is decided where the way of its key ends. */
  lemma WayEnds(t: Tree, m: map<Key, Value>, p: Path, key: Key)
    requires Good(t, m, {}) && EndsAt(t, p, key)
    ensures Blocked(t, key) <==> BlockedAt(t, p, key)
    ensures Panics(t, key) <==> p == Term(key) && t.look[p].leaf.NoLeaf?
    ensures Loses(t, key) <==> LosesAt(t, p, key)
    ensures Strays(t, key) <==> StraysAt(t, p, key)
  {
    hide BlockedAt, LosesAt, StraysAt, Panics, Loses, Strays, Blocked;
    GoodNested(t, m);
    DecidedAtEnd(t, p, key);
  }

  /** An inner node on the way of a key, at which it goes no further. */
  lemma EndsInside(t: Tree, m: map<Key, Value>, p: Path, key: Key)
    requires Good(t, m, {}) && p in t.look && t.look[p].leaf.NoLeaf? && p <= key && !Through(p, t.look[p], Term(key))
    ensures Fate(t, key) == if |p| + |t.look[p].prefix| > |key| then Stuck else Stored
  {
    hide Good, Through, Blocked, Panics, Loses, Strays;
    assert p <= Term(key);
    WayEnds(t, m, p, key);
  }

  /** A leaf on the way of a key. */
  lemma EndsAtLeaf(t: Tree, m: map<Key, Value>, p: Path, key: Key)
    requires Good(t, m, {}) && p in t.look && t.look[p].leaf.Leaf? && p <= key
    ensures var l := t.look[p].leaf.key;
            Fate(t, key) ==
            if l == key then Stored else if Doubles(p, l, key) then Lost else if p <= l then Stored else Strayed
    ensures Fate(t, key) == Strayed ==> StraysAt(t, p, key)
  {
    hide Good, Through, Blocked, Panics, Loses, Strays, Overlap;
    assert p <= Term(key);
    WayEnds(t, m, p, key);
  }

  /** What lies at the very end of a key's way is its leaf, or the key clashes. */
  lemma EndsAtTerm(t: Tree, m: map<Key, Value>, p: Path, key: Key)
    requires Good(t, m, {}) && p in t.look && p <= Term(key) && |p| == |key| + 1
    ensures Fate(t, key) ==
            if t.look[p].leaf.NoLeaf? then Panicked else if t.look[p].leaf.key == key then Stored else Lost
  {
    hide Good, Blocked, Panics, Loses, Strays, Doubles;
    assert p == Term(key);
    WayEnds(t, m, p, key);
  }

  lemma NoWay(t: Tree, m: map<Key, Value>, key: Key)
    requires Good(t, m, {}) && t.at == map[]
    ensures Fate(t, key) == Stored
  {
    assert t.look.Keys == {};
  }

  lemma Differs(p: Path, v: View, key: Key, i: nat)
    requires p <= key && i < |v.prefix| && |p| + |v.prefix| <= |key| && key[|p| + i] != v.prefix[i]
    ensures !Through(p, v, Term(key))
  {
    var w := p + v.prefix;
    assert w[|p| + i] == v.prefix[i] && Term(key)[|p| + i] == key[|p| + i];
  }

  lemma OneGood(n: Node, key: Key, value: Value)
    ensures Good(Tree(map[[] := n], map[[] := View([], Leaf(key, value), map[])]), map[key := value], {})
  {
    var t := Tree(map[[] := n], map[[] := View([], Leaf(key, value), map[])]);
    assert t.look[[]].leaf == Leaf(key, value);
    assert HasLeaf(t, key, value);
  }

  method Unhang(ghost at: map<Path, Node>, n: Node, ghost p: Path, b: byte)
    requires AllProper(at) && Tidy(at) && p in at && at[p] == n && (forall x :: x in at && x != p ==> at[x] != n)
    modifies n
    ensures AllProper(at) && Tidy(at - {p}) && n.Single() && n.leaf == old(n.leaf)
    ensures Looks(at) == old(Looks(at))[p := old(n.Look()).(kids := old(n.Kids()) - {b})]
  {
    hide Node.Proper, Node.Kids, Node.Single;
    n.RemoveChild(b);
  }

  /** Nothing outside a path has changed, nothing is new, and no keys are needed to explain it but those
      that were. */
  ghost predicate Elsewhere(t: Tree, u: Tree, p: Path) {
    && (forall x :: x in u.at ==> x in t.at && u.at[x] == t.at[x])
    && (forall x :: x in t.look && !(p <= x) ==> x in u.at && x in u.look && u.look[x] == t.look[x])
    && (forall ever :: Known(t, ever) ==> Known(u, ever))
    && (Tame(t) ==> Tame(u))
  }

  lemma SameElsewhere(t: Tree, m: map<Key, Value>, p: Path)
    requires Good(t, m, {})
    ensures Elsewhere(t, t, p)
  {
  }

  lemma ElsewhereAt(t: Tree, u: Tree, q: Path, p: Path)
    requires Elsewhere(t, u, q) && p in t.look && !(q <= p)
    ensures p in u.at && p in u.look && u.look[p] == t.look[p] && u.at[p] == t.at[p]
  {
  }

  lemma WiderElsewhere(t: Tree, u: Tree, p: Path, q: Path)
    requires Elsewhere(t, u, q) && p <= q
    ensures Elsewhere(t, u, p)
  {
    hide Known;
  }

  lemma DropElsewhere(t: Tree, u: Tree, p: Path)
    requires Elsewhere(t, u, p)
    ensures Elsewhere(t, Drop(u, p), p)
  {
    forall ever | Known(t, ever) ensures Known(Drop(u, p), ever) {
      forall x | x in Drop(u, p).look ensures KnownAt(x, u.look[x], ever) {
      }
    }
  }

  lemma ForgetElsewhere(t: Tree, u: Tree, p: Path, q: Path, b: byte)
    requires Elsewhere(t, u, q) && p <= q && p in u.look
    ensures Elsewhere(t, Forget(u, p, b), p)
  {
    var r := Forget(u, p, b);
    forall ever | Known(t, ever) ensures Known(r, ever) {
      forall x | x in r.look ensures KnownAt(x, r.look[x], ever) {
        assert KnownAt(x, u.look[x], ever);
      }
    }
  }

  lemma ElsewhereSubset(t: Tree, u: Tree)
    requires Elsewhere(t, u, [])
    ensures forall x :: x in u.at ==> x in t.at && u.at[x] == t.at[x]
    ensures forall n :: n in u.at.Values ==> n in t.at.Values
    ensures (Tame(t) ==> Tame(u)) && forall ever :: Known(t, ever) ==> Known(u, ever)
  {
    hide Known;
  }

  lemma HoleAtRoot(t: Tree, m: map<Key, Value>)
    requires Good(t, m, {[]})
    ensures t.at == map[] && Good(t, m, {})
  {
    assert forall x :: x in t.look ==> !([] <= x);
  }

  lemma PlacedAt(t: Tree, m: map<Key, Value>, holes: set<Path>, p: Path)
    requires Good(t, m, holes) && p in t.at
    ensures forall x :: x in t.at && x != p ==> t.at[x] != t.at[p]
  {
  }

  lemma LeafNotKey(t: Tree, m: map<Key, Value>, p: Path, key: Key)
    requires Good(t, m, {}) && p in t.look && t.look[p].leaf.Leaf? && t.look[p].leaf.key != key
    requires key in m ==> OnWay(p, key)
    ensures key !in m
  {
    hide Good;
    if key in m {
      ForeignLeaf(t, m, p, key);
    }
  }

  /** How much of a key has been read at a path. */
  function Read(p: Path, key: Key): nat {
    if |p| <= |key| then |p| else |key|
  }

  /** The way of a stored key goes on at every inner node on it: the prefix is the key's and there is a child. */
  lemma OnTrack(t: Tree, m: map<Key, Value>, p: Path, key: Key)
    requires Good(t, m, {}) && p in t.look && t.look[p].leaf.NoLeaf? && (key in m ==> OnWay(p, key))
    ensures key in m ==> Going(p, t.look[p], key)
  {
    hide Good;
    if key in m {
      Toward(t, m, {}, p, key);
      KeepGoing(p, t.look[p], key);
    }
  }

  ghost predicate Going(p: Path, v: View, key: Key) {
    var d := Read(p, key) + |v.prefix|;
    var b: byte := if d >= |key| then 0 else key[d];
    && (v.prefix != [] ==> d <= |key| && key[Read(p, key)..d] == v.prefix)
    && b in v.kids && OnWay(Next(p, v, b), key)
    && Read(Next(p, v, b), key) == if d < |key| then d + 1 else d
  }

  lemma KeepGoing(p: Path, v: View, key: Key)
    requires OnWay(p, key) && Leads(p, v, key) && (v.prefix != [] ==> p + v.prefix <= key)
    ensures Going(p, v, key)
  {
    var w := p + v.prefix;
    if v.prefix != [] {
      assert key[..|w|] == w && w[|p|..] == v.prefix;
    }
    OnWayNext(p, v, ByteAt(key, |w|), key);
  }

  /** A child lies below its parent. */
  lemma KidBelow(t: Tree, m: map<Key, Value>, p: Path, c: byte)
    requires Good(t, m, {}) && p in t.look && t.look[p].leaf.NoLeaf? && c in t.look[p].kids
    ensures var q := Next(p, t.look[p], c); p <= q && !(q <= p) && |q| == |p| + |t.look[p].prefix| + 1
  {
  }

  lemma InnerKind(n: Node)
    requires n.Proper() && n.leaf.NoLeaf?
    ensures n.kind == NODE4 || n.kind == NODE16 || n.kind == NODE48 || n.kind == NODE256
  {
  }

  lemma PairedShape(n: Node)
    requires n.Proper() && (n.kind == NODE4 || n.kind == NODE16)
    ensures |n.keys| == |n.children| && forall b: byte :: b in n.Kids() <==> b in n.keys
  {
    KeysOfPaired(n.keys, n.children);
  }

  lemma PairedShapeAt(n: Node, i: nat)
    requires n.Proper() && n.Single() && (n.kind == NODE4 || n.kind == NODE16) && i < |n.keys|
    ensures |n.keys| == |n.children| && n.keys[i] in n.Kids() && n.children[i] == n.Kids()[n.keys[i]]
    ensures n.keys[..i + 1] == n.keys[..i] + [n.keys[i]] && forall b :: b in n.keys[..i] ==> b < n.keys[i]
  {
    FirstOfDistinct(n.keys, i);
    PairedKid(n.keys, n.children, i);
  }

  /** A child is the first under its byte, or the hidden leaf. */
  lemma ChildAt(n: Node, i: nat, twin: Node?)
    requires n.Proper() && (n.kind == NODE4 || n.kind == NODE16) && i < |n.keys|
    requires n.Single() || (twin != null && n.Hides(twin))
    ensures |n.keys| == |n.children| && n.children[i] != null && n.keys[i] in n.Kids()
    ensures n.children[i] == n.Kids()[n.keys[i]] || (!n.Single() && n.children[i] == twin)
  {
    KeysOfPaired(n.keys, n.children);
    if n.Single() {
      FirstOfDistinct(n.keys, i);
      PairedKid(n.keys, n.children, i);
    } else if i == 0 || n.keys[i - 1] != n.keys[i] {
      FirstOfSorted(n.keys, i);
      PairedKid(n.keys, n.children, i);
    }
  }

  lemma FirstOfSorted(keys: seq<byte>, i: nat)
    requires Sorted(keys) && i < |keys| && (i == 0 || keys[i - 1] != keys[i])
    ensures keys[i] !in keys[..i]
  {
    forall j | 0 <= j < i ensures keys[j] != keys[i] {
      assert keys[j] <= keys[i - 1] <= keys[i];
    }
  }

  lemma IndexedShape(n: Node)
    requires n.Proper() && n.kind == NODE48
    ensures |n.index| == 256
    ensures forall b: byte :: b in n.Kids() <==> n.index[b] != EMPTY_INDEX
    ensures forall b: byte :: b in n.Kids() ==> 0 <= n.index[b] < |n.children| && n.Kids()[b] == n.children[n.index[b]]
  {
  }

  lemma DirectShape(n: Node)
    requires n.Proper() && n.kind == NODE256
    ensures |n.children| == 256
    ensures forall b: byte ::
              (b in n.Kids() <==> n.children[b] != null) && (b in n.Kids() ==> n.Kids()[b] == n.children[b])
  {
  }

  lemma GatherNone(t: Tree, p: Path, keep: Key -> bool)
    requires p in t.look
    ensures Gathered(t, p, {}, keep, [])
  {
  }

  lemma GoodLeaves(t: Tree, m: map<Key, Value>)
    requires Good(t, m, {})
    ensures LeavesOk(t, m)
  {
  }

  function NoKeys(): (ks: seq<Key>)
    ensures Ascending(ks) && |ks| == 0
  {
    []
  }

  /** A bound on the lengths of some paths. */
  ghost function Deepest(ps: set<Path>): (d: nat)
    ensures forall p :: p in ps ==> |p| <= d
  {
    if ps == {} then 0
    else
      var p :| p in ps;
      var d := Deepest(ps - {p});
      assert forall q :: q in ps ==> q == p || q in ps - {p};
      if |p| > d then |p| else d
  }

  lemma UnderRoot(t: Tree, m: map<Key, Value>, k: Key)
    requires Good(t, m, {})
    ensures Under(t, [], k) <==> k in m
  {
    hide LeavesOk, Complete;
    if Under(t, [], k) {
      UnderTerm(t, m, [], k);
    }
    if k in m {
      var q := LeafOf(t, m, k);
      assert LeafAt(t, q, k) && [] <= q;
    }
  }

  lemma NoneThere(t: Tree, m: map<Key, Value>, p: Path, prefix: Key)
    requires Good(t, m, {}) && p in t.look && t.look[p].leaf.NoLeaf? && p <= prefix
    requires !(prefix <= p + t.look[p].prefix) && !Through(p, t.look[p], prefix)
    ensures !Misled(t, prefix) && forall k :: !(k in m && prefix <= k)
  {
    hide Good, Through;
    PrefixOutside(t, m, p, prefix, prefix);
    forall k ensures !(k in m && prefix <= k) {
      PrefixOutside(t, m, p, prefix, k);
    }
  }

  lemma InsidePrefix(p: Path, v: View, prefix: Key)
    requires p <= prefix && |p| + |v.prefix| > |prefix| && v.prefix[..|prefix| - |p|] == prefix[|p|..]
    ensures prefix <= p + v.prefix
  {
    assert prefix == p + prefix[|p|..];
  }

  lemma OutsidePrefix(p: Path, v: View, prefix: Key)
    requires p <= prefix && |p| + |v.prefix| > |prefix| && v.prefix[..|prefix| - |p|] != prefix[|p|..]
    ensures !(prefix <= p + v.prefix) && !Through(p, v, prefix)
  {
    var w := p + v.prefix;
    assert w[|p|..|prefix|] == v.prefix[..|prefix| - |p|];
    if prefix <= w {
      SliceOfPrefix(p, prefix, w);
    }
  }

  lemma SliceOfPrefix(p: Path, q: Path, w: Path)
    requires p <= q <= w
    ensures w[|p|..|q|] == q[|p|..]
  {
  }

  lemma OtherPrefix(p: Path, v: View, prefix: Key)
    requires p <= prefix && |p| + |v.prefix| <= |prefix| && v.prefix != prefix[|p|..|p| + |v.prefix|]
    ensures !(prefix <= p + v.prefix) && !Through(p, v, prefix)
  {
    var w := p + v.prefix;
    assert w[|p|..] == v.prefix;
    if w <= prefix {
      SliceOfPrefix(p, w, prefix);
    }
  }

  lemma WholePrefix(p: Path, v: View, prefix: Key)
    requires p <= prefix && |p| + |v.prefix| <= |prefix| && v.prefix == prefix[|p|..|p| + |v.prefix|]
    ensures p + v.prefix <= prefix && (|p| + |v.prefix| >= |prefix| ==> prefix <= p + v.prefix)
    ensures |p| + |v.prefix| < |prefix| ==> !(prefix <= p + v.prefix)
  {
  }

  lemma RootLonger(p: Path, v: View, b: byte)
    ensures Next(p, v, b) != []
  {
  }

  lemma GoodNested(t: Tree, m: map<Key, Value>)
    requires Good(t, m, {})
    ensures Nested(t)
  {
  }

  /** No other path leads to the node. */
  lemma AtInjective(t: Tree, m: map<Key, Value>, p: Path)
    requires Good(t, m, {}) && p in t.at
    ensures t.at.Keys == t.look.Keys && forall x :: x in t.at && x != p ==> t.at[x] != t.at[p]
  {
  }

  lemma NoNodes(t: Tree, m: map<Key, Value>)
    requires Good(t, m, {}) && t.at == map[]
    ensures m == map[]
  {
    hide Complete, LeavesOk;
    if m != map[] {
      var k :| k in m;
      var q := LeafOf(t, m, k);
    }
  }

  lemma TidyAt(at: map<Path, Node>, p: Path)
    requires Tidy(at) && p in at
    ensures at[p].Single() && (at[p].leaf.NoLeaf? ==> !at[p].Bare())
  {
  }

  lemma TidyBut(at: map<Path, Node>, p: Path)
    requires Tidy(at)
    ensures Tidy(at - {p})
  {
  }

  lemma TidyAgain(at: map<Path, Node>, p: Path)
    requires p in at && Tidy(at - {p}) && at[p].Single() && !at[p].Bare()
    ensures Tidy(at)
  {
    forall q | q in at ensures at[q].Single() && (at[q].leaf.NoLeaf? ==> !at[q].Bare()) {
      if q != p {
        assert (at - {p})[q] == at[q];
      }
    }
  }

  /** The keys that explain a tree, and one more, explain the next one. */
  ghost predicate Explained(t: Tree, u: Tree, key: Key) {
    forall ever :: Known(t, ever) && key in ever ==> Known(u, ever)
  }

  lemma ExplainedOn(t: Tree, u: Tree, w: Tree, key: Key)
    requires Explained(t, u, key) && Explained(u, w, key)
    ensures Explained(t, w, key)
  {
    hide Known;
  }

  lemma SplitExplained(t: Tree, p: Path, u: seq<byte>, c: byte, n: Node, below: View, key: Key)
    requires p in t.look && CanSplit(t, p, u, c, n, below)
    requires t.look[p].leaf.Leaf? ==>
               p + u <= key && (u != [] ==> t.look[p].leaf.key != key && p + u <= t.look[p].leaf.key)
    ensures Explained(t, Split(t, p, u, c, n, below), key)
  {
    forall ever | Known(t, ever) && key in ever ensures Known(Split(t, p, u, c, n, below), ever) {
      SplitPoint(t, p, u, c, n, below, ever, key);
      SplitKnown(t, p, u, c, n, below, ever);
    }
  }

  lemma SplitPoint(t: Tree, p: Path, u: seq<byte>, c: byte, n: Node, below: View, ever: set<Key>, key: Key)
    requires Known(t, ever) && key in ever && p in t.look && CanSplit(t, p, u, c, n, below)
    requires t.look[p].leaf.Leaf? ==>
               p + u <= key && (u != [] ==> t.look[p].leaf.key != key && p + u <= t.look[p].leaf.key)
    ensures KnownAt(p, View(u, NoLeaf, map[]), ever)
  {
    var v := t.look[p];
    assert KnownAt(p, v, ever);
    if v.leaf.NoLeaf? {
      assert p <= p + u <= p + v.prefix;
      var a, b :| a in ever && b in ever && a != b && p + v.prefix <= a && p + v.prefix <= b;
    }
    assert u == [] ==> p + u == p;
  }

  lemma AddLeafExplained(t: Tree, p: Path, b: byte, n: Node, k: Key, value: Value)
    requires CanAddLeaf(t, p, b, n, k)
    ensures Explained(t, AddLeaf(t, p, b, n, k, value), k)
  {
    forall ever | Known(t, ever) && k in ever ensures Known(AddLeaf(t, p, b, n, k, value), ever) {
      AddLeafKnown(t, p, b, n, k, value, ever);
    }
  }

  lemma SetValueExplained(t: Tree, p: Path, value: Value, key: Key)
    requires p in t.look && t.look[p].leaf.Leaf?
    ensures Explained(t, SetValue(t, p, value), key)
  {
    forall ever | Known(t, ever) && key in ever ensures Known(SetValue(t, p, value), ever) {
      SetValueKnown(t, p, value, ever);
    }
  }

  /** A leaf whose key cannot be told apart from another one. */
  predicate Taken(l: Leaf, key: Key) {
    l.Leaf? && l.key != key && Overlap(l.key, key)
  }

  /** Of the keys that should be there, exactly one is missing: the new one, or one that was there before. */
  ghost predicate OneLost(m: map<Key, Value>, m': map<Key, Value>, key: Key, value: Value) {
    key !in m && (m' == m || exists l :: l in m && m' == (m - {l})[key := value])
  }

  lemma OneLostDiffers(m: map<Key, Value>, m': map<Key, Value>, key: Key, value: Value)
    requires OneLost(m, m', key, value)
    ensures exists k :: k in m[key := value] && k !in m'
  {
    if m' == m {
      assert key in m[key := value];
    } else {
      var l :| l in m && m' == (m - {l})[key := value];
      assert l in m[key := value] && l !in m';
    }
  }

  lemma TermWithin(q: Path, key: Key, l: Key)
    requires OnWay(q, key) && |q| <= |key| + 1 && Term(key) <= l
    ensures q <= l
  {
    OnWayWithin(q, key);
  }

  lemma OverlapBelow(l: Key, key: Key)
    requires Overlap(l, key) && !(Term(key) <= l)
    ensures Less(l, key)
  {
    assert l <= Term(l) <= key;
    PrefixIsAtMost(l, key);
    LessTotal(l, key);
  }

  lemma DoublesOverlap(p: Path, l: Key, key: Key)
    requires OnWay(p, l) && p <= key && l != key
    ensures Doubles(p, l, key) ==> Overlap(l, key)
    ensures p <= l <==> |p| <= |l|
  {
    OnWayWithin(p, l);
    assert p <= Term(key);
    if !(p <= l) {
      PastEnd(p, l, key);
    }
  }

  lemma TermTaken(t: Tree, m: map<Key, Value>, q: Path, key: Key)
    requires Good(t, m, {}) && q in t.look && t.look[q].leaf.Leaf? && t.look[q].leaf.key != key
    requires q <= Term(key) && |q| == |key| + 1
    ensures Taken(t.look[q].leaf, key)
  {
    hide Good;
    var l := t.look[q].leaf.key;
    LeafHere(t, m, q);
    assert q == Term(key);
    if !(q <= l) {
      PastEnd(q, l, key);
    }
  }

  lemma AddLeafOnward(t: Tree, p: Path, b: byte, n: Node, k: Key, value: Value)
    requires CanAddLeaf(t, p, b, n, k) && Next(p, t.look[p], b) !in t.look
    ensures var u := AddLeaf(t, p, b, n, k, value);
            Explained(t, u, k) && (Tame(t) ==> Tame(u)) && forall x :: Misled(t, x) ==> Misled(u, x)
  {
    hide Explained, Tame, Misled;
    AddLeafExplained(t, p, b, n, k, value);
    if Tame(t) {
      AddLeafTame(t, p, b, n, k, value);
    }
    forall x | Misled(t, x) ensures Misled(AddLeaf(t, p, b, n, k, value), x) {
      StillMisled(t, p, b, n, k, value, x);
    }
  }

  /** What a new leaf makes of a tree, in a place of its own or in that of another leaf. */
  lemma NewPlace(t: Tree, m: map<Key, Value>, p: Path, b: byte, n: Node, k: Key, value: Value)
    requires Good(t, m, {}) && p in t.look && t.look[p].leaf.NoLeaf? && n !in t.at.Values
    requires OnWay(Next(p, t.look[p], b), k) && |p| + |t.look[p].prefix| <= |k|
    requires var q := Next(p, t.look[p], b);
             b in t.look[p].kids ==> q in t.look && t.look[q].leaf.Leaf? && t.look[q].leaf.key != k
    ensures k !in m && p != Next(p, t.look[p], b)
    ensures var u, q := AddLeaf(t, p, b, n, k, value), Next(p, t.look[p], b);
            if b in t.look[p].kids
            then t.look[q].leaf.key in m && Good(u, (m - {t.look[q].leaf.key})[k := value], {})
            else q !in t.look && Good(u, m[k := value], {}) && Explained(t, u, k) && (Tame(t) ==> Tame(u)) &&
                 forall x :: Misled(t, x) ==> Misled(u, x)
  {
    hide Good, OnWay, Explained, Tame, Misled, AddLeaf;
    NextLonger(p, t.look[p], b);
    if b in t.look[p].kids {
      OustStep(t, m, p, b, n, k, value);
    } else {
      AddLeafAbsent(t, p, b) by { GoodNested(t, m); }
      AddLeafStep(t, m, p, b, n, k, value);
      AddLeafOnward(t, p, b, n, k, value);
    }
  }

  lemma StillMisled(t: Tree, p: Path, b: byte, n: Node, k: Key, value: Value, x: Path)
    requires p in t.look && t.look[p].leaf.NoLeaf? && Next(p, t.look[p], b) !in t.look && Misled(t, x)
    ensures Misled(AddLeaf(t, p, b, n, k, value), x)
  {
    var u := AddLeaf(t, p, b, n, k, value);
    var l :| Under(t, x, l) && |l| < |x|;
    var q :| LeafAt(t, q, l) && x <= q;
    MisledBy(u, x, q, l);
  }

  lemma SplitBelowIs(t: Tree, p: Path, u: seq<byte>, c: byte, n: Node, below: View)
    requires CanSplit(t, p, u, c, n, below)
    ensures t.look[p].leaf == below.leaf
  {
  }

  /** A leaf moved on past the end of its key misleads. */
  lemma LeftBehind(t: Tree, p: Path, u: seq<byte>, c: byte, n: Node, below: View)
    requires CanSplit(t, p, u, c, n, below) && below.leaf.Leaf? && |p| > |below.leaf.key|
    ensures Misled(Split(t, p, u, c, n, below), p)
  {
    var r, q := Split(t, p, u, c, n, below), p + u + [c];
    assert p != q && p <= q;
    MisledBy(r, p, q, below.leaf.key);
  }

  lemma TwinsAt(at: map<Path, Node>, p: Path, twin: Node?)
    requires Twins(at, twin) && p in at
    ensures at[p].Single() || (twin != null && twin.leaf.Leaf? && at[p].Hides(twin))
  {
  }

  lemma LeafNotMisled(t: Tree, m: map<Key, Value>, p: Path, prefix: Key)
    requires Good(t, m, {}) && p in t.look && t.look[p].leaf.Leaf? && p <= prefix
    ensures !Misled(t, prefix)
  {
    hide Good;
    if prefix in t.look && p != prefix {
      NotBetween(t, m, p, prefix);
    }
  }

  /** All keys below a node are what a prefix that ends there asks for, unless the search is misled. */
  lemma InsideExactly(t: Tree, m: map<Key, Value>, p: Path, prefix: Key, out: seq<Key>)
    requires Good(t, m, {}) && p in t.look && t.look[p].leaf.NoLeaf? && p <= prefix <= p + t.look[p].prefix
    requires forall k :: k in out <==> Under(t, p, k)
    ensures (forall k :: k in out ==> k in m) && forall k :: k in m && prefix <= k ==> k in out
    ensures (forall k :: k in out <==> k in m && prefix <= k) <==> !Misled(t, prefix)
  {
    hide Good, Under;
    forall k ensures k in m && prefix <= k ==> k in out
      ensures k in out ==> k in m && (prefix <= k || (p == prefix && |k| < |prefix|))
    {
      PrefixInside(t, m, p, prefix, k);
    }
    if Misled(t, prefix) {
      var k :| Under(t, prefix, k) && |k| < |prefix|;
      PrefixInside(t, m, p, prefix, k);
      assert k in out;
    }
  }

  lemma TidyTwins(at: map<Path, Node>, twin: Node?)
    requires Tidy(at)
    ensures Twins(at, twin)
  {
  }

  lemma SetValueKnown(t: Tree, p: Path, value: Value, ever: set<Key>)
    requires Known(t, ever) && p in t.look && t.look[p].leaf.Leaf?
    ensures Known(SetValue(t, p, value), ever)
  {
    var r := SetValue(t, p, value);
    forall x | x in r.look ensures KnownAt(x, r.look[x], ever) {
      assert KnownAt(x, t.look[x], ever);
    }
  }

  lemma TooShort(p: Path, v: View, key: Key)
    requires |p| + |v.prefix| > |key|
    ensures !Through(p, v, Term(key))
  {
  }

  lemma LooksAt(at: map<Path, Node>, p: Path)
    requires AllProper(at) && p in at
    ensures at[p].Proper() && p in Looks(at) && Looks(at)[p] == at[p].Look()
  {
  }

  lemma PrefixMatched(p: Path, v: View, key: Key)
    requires p <= key && |p| + |v.prefix| <= |key| && key[|p|..|p| + |v.prefix|] == v.prefix
    ensures p + v.prefix <= key && p + v.prefix <= Term(key)
    ensures Term(key)[|p| + |v.prefix|] == if |p| + |v.prefix| >= |key| then 0 else key[|p| + |v.prefix|]
  {
  }

  lemma NoKid(p: Path, v: View, s: Path, b: byte)
    requires |p| + |v.prefix| < |s| && s[|p| + |v.prefix|] == b && b !in v.kids
    ensures !Through(p, v, s)
  {
  }

  lemma NextLonger(p: Path, v: View, b: byte)
    ensures |Next(p, v, b)| == |p| + |v.prefix| + 1
  {
  }
}
