/** The adaptive radix tree store: a map with ordered scans, kept in nodes that are rewritten in place. */
module ArtTree {
  import opened Bytes
  import opened Lookups
  import opened ArtNode
  import opened ArtPaths
  import opened ArtWalk
  import opened ArtSteps

  /** What a prefix search should list. */
  ghost predicate ListsAll(m: map<Key, Value>, prefix: Key, out: seq<Key>) {
    Ascending(out) && forall k :: k in out <==> k in m && prefix <= k
  }

  /** One key is listed right before another. */
  ghost predicate Adjacent(out: seq<Key>, k: Key, l: Key) {
    exists i :: 0 <= i < |out| - 1 && out[i] == k && out[i + 1] == l
  }

  lemma Descends(out: seq<Key>, k: Key, l: Key)
    requires Adjacent(out, k, l) && Less(l, k)
    ensures !Ascending(out)
  {
    var i :| 0 <= i < |out| - 1 && out[i] == k && out[i + 1] == l;
    LessIsStrictTotalOrder();
  }

  /** The last thing listed is the key of a leaf. */
  ghost predicate EndsWith(c: Node?, keep: Key -> bool, out: seq<Key>)
    reads if c == null then {} else {c}
  {
    c != null && c.leaf.Leaf? && keep(c.leaf.key) ==> out != [] && out[|out| - 1] == c.leaf.key
  }

  ghost predicate PairListed(x: Node?, y: Node?, keep: Key -> bool, out: seq<Key>)
    reads (if x == null then {} else {x}) + (if y == null then {} else {y})
  {
    x != null && y != null && x.leaf.Leaf? && y.leaf.Leaf? && keep(x.leaf.key) && keep(y.leaf.key) ==>
      Adjacent(out, x.leaf.key, y.leaf.key)
  }

  /** Leaves that stand side by side are listed side by side, and the last one last. */
  ghost predicate PairsListed(cs: seq<Node?>, keep: Key -> bool, out: seq<Key>)
    reads cs
  {
    && (cs != [] ==> EndsWith(cs[|cs| - 1], keep, out))
    && forall j :: 0 <= j < |cs| - 1 ==> PairListed(cs[j], cs[j + 1], keep, out)
  }

  lemma NoPairs(keep: Key -> bool)
    ensures PairsListed([], keep, [])
  {
  }

  lemma PairsMore(cs: seq<Node?>, c: Node, keep: Key -> bool, before: seq<Key>, out: seq<Key>)
    requires PairsListed(cs, keep, before) && before <= out
    requires c.leaf.Leaf? ==> out == before + if keep(c.leaf.key) then [c.leaf.key] else []
    ensures PairsListed(cs + [c], keep, out)
  {
    var ds := cs + [c];
    forall j | 0 <= j < |ds| - 1 ensures PairListed(ds[j], ds[j + 1], keep, out) {
      PairStays(ds[j], ds[j + 1], keep, before, out, j == |cs| - 1);
    }
  }

  lemma TwinShows(n: Node, x: Node, y: Node, keep: Key -> bool, out: seq<Key>)
    requires PairsListed(n.children, keep, out) && n.Twin(x, y)
    requires x.leaf.Leaf? && y.leaf.Leaf? && keep(x.leaf.key) && keep(y.leaf.key)
    ensures Adjacent(out, x.leaf.key, y.leaf.key)
  {
    var i :| 0 <= i < |n.children| - 1 && n.children[i] == x && n.children[i + 1] == y;
    assert PairListed(n.children[i], n.children[i + 1], keep, out);
  }

  lemma PairStays(x: Node?, y: Node?, keep: Key -> bool, before: seq<Key>, out: seq<Key>, last: bool)
    requires before <= out
    requires !last ==> PairListed(x, y, keep, before)
    requires last ==> EndsWith(x, keep, before)
    requires last && y != null && y.leaf.Leaf? && keep(y.leaf.key) ==> out == before + [y.leaf.key]
    ensures PairListed(x, y, keep, out)
  {
    if x != null && y != null && x.leaf.Leaf? && y.leaf.Leaf? && keep(x.leaf.key) && keep(y.leaf.key) {
      if last {
        var i := |before| - 1;
        assert out[i] == x.leaf.key && out[i + 1] == y.leaf.key;
      } else {
        AdjacentMore(before, out, x.leaf.key, y.leaf.key);
      }
    }
  }

  lemma AdjacentMore(before: seq<Key>, out: seq<Key>, k: Key, l: Key)
    requires before <= out && Adjacent(before, k, l)
    ensures Adjacent(out, k, l)
  {
    var i :| 0 <= i < |before| - 1 && before[i] == k && before[i + 1] == l;
    assert out[i] == before[i] && out[i + 1] == before[i + 1];
  }

  class ARTStore {
    var root: Node?
    /** Where the nodes are. */
    ghost var at: map<Path, Node>
    /** What searches find. */
    ghost var contents: map<Key, Value>
    /** The leaf that is hidden behind another, once a key is lost. */
    ghost var twin: Node?

    ghost function Now(): Tree
      requires AllProper(at)
      reads this, at.Values
    {
      Tree(at, Looks(at))
    }

    /** Every search for a key works. */
    ghost predicate Searchable()
      reads this, at.Values, Hidden()
    {
      && AllProper(at) && Twins(at, twin) && Good(Now(), contents, {})
      && (if root == null then at == map[] else [] in at && at[[]] == root)
    }

    ghost function Hidden(): set<Node>
      reads this
    {
      if twin == null then {} else {twin}
    }

    ghost predicate Valid()
      reads this, at.Values
    {
      && AllProper(at) && Tidy(at) && Good(Now(), contents, {})
      && (if root == null then at == map[] else [] in at && at[[]] == root)
    }

    /** What is known of a reply to a prefix search, also where a key is hidden. */
    ghost predicate Lists(prefix: Key, out: seq<Key>)
      requires AllProper(at)
      reads this, at.Values, Hidden()
    {
      && (Valid() ==>
            && Ascending(out) && (forall k :: k in out ==> k in contents)
            && (forall k :: k in contents && prefix <= k ==> k in out)
            && (ListsAll(contents, prefix, out) <==> !Misled(Now(), prefix)))
      && (forall q :: q in at && at[q].leaf.Leaf? && q <= prefix ==>
            out == if prefix <= at[q].leaf.key then [at[q].leaf.key] else [])
      && (forall p, q :: ShowsTwin(p, q, prefix) ==> Adjacent(out, at[q].leaf.key, twin.leaf.key))
    }

    /** The prefix ends at a node with a hidden leaf. */
    ghost predicate ShowsTwin(p: Path, q: Path, prefix: Key)
      reads this, at.Values, Hidden()
    {
      && p in at && q in at && at[p].leaf.NoLeaf? && prefix == p + at[p].prefix
      && twin != null && twin.leaf.Leaf? && at[q].leaf.Leaf? && at[p].Twin(at[q], twin)
    }

    /** The search for a prefix does not give the right reply. */
    ghost predicate MisleadsAt(m: map<Key, Value>, prefix: Key)
      requires AllProper(at)
      reads this, at.Values, Hidden()
    {
      forall out :: Lists(prefix, out) ==> !ListsAll(m, prefix, out)
    }

    ghost predicate Misleads(m: map<Key, Value>)
      requires AllProper(at)
      reads this, at.Values, Hidden()
    {
      exists prefix :: MisleadsAt(m, prefix)
    }

    /** Every prefix search gives the right reply. */
    ghost predicate Guides(m: map<Key, Value>)
      requires AllProper(at)
      reads this, at.Values, Hidden()
    {
      forall prefix, out :: Lists(prefix, out) ==> ListsAll(m, prefix, out)
    }

    lemma TameGuides()
      requires Valid() && Tame(Now())
      ensures Guides(contents)
    {
      hide Good, Looks, AllProper, Tidy, Tame, Misled, ListsAll;
      forall prefix, out | Lists(prefix, out) ensures ListsAll(contents, prefix, out) {
        TameHasNone(Now(), prefix);
      }
    }

    constructor ()
      ensures Valid() && contents == map[] && at == map[] && root == null
      ensures Tame(Now()) && forall ever :: Known(Now(), ever)
    {
      root, at, contents, twin := null, map[], map[], null;
    }

    method Get(key: Key) returns (l: Lookup)
      requires Searchable()
      ensures l == Find(contents, key)
    {
      hide Good, Looks, Next, Node.Proper, Node.Kids, Twins, OnWay;
      ghost var t := Now();
      if root == null {
        NoNodes(t, contents);
        return Missing;
      }
      var n, depth: nat := root, 0;
      ghost var p: Path, deepest := [], Deepest(at.Keys);
      RootOnWay(key);
      while n.leaf.NoLeaf?
        invariant p in at && at[p] == n && depth <= |key|
        invariant key in contents ==> OnWay(p, key) && depth == Read(p, key)
        decreases deepest - |p|
      {
        LooksAt(at, p);
        ghost var v := n.Look();
        OnTrack(t, contents, p, key);
        if n.prefix != [] {
          var pxLen := |n.prefix|;
          if depth + pxLen > |key| || key[depth..depth + pxLen] != n.prefix {
            return Missing;
          }
          depth := depth + pxLen;
        }
        var b: byte := if depth >= |key| then 0 else key[depth];
        var c := n.FindChild(b);
        if c == null {
          return Missing;
        }
        KidPlace(t, contents, p, b);
        KidBelow(t, contents, p, b);
        p := Next(p, v, b);
        n := c;
        if depth < |key| {
          depth := depth + 1;
        }
        LooksAt(at, p);
      }
      LooksAt(at, p);
      LeafHere(t, contents, p);
      if n.leaf.key == key {
        return Found(n.leaf.value);
      }
      LeafNotKey(t, contents, p, key);
      return Missing;
    }

    // ----- Set

    /** A key that no search finds is not listed either. */
    lemma MissingMisleads(m: map<Key, Value>, k: Key)
      requires Valid() && k in m && k !in contents
      ensures Misleads(m)
    {
      hide Ascending, Good, Looks, AllProper, Tidy, Misled;
      assert MisleadsAt(m, k);
    }

    /** A search for the whole of a key that ends at the leaf of another does not list it. */
    lemma OtherMisleads(m: map<Key, Value>, q: Path, k: Key)
      requires AllProper(at) && q in at && at[q].leaf.Leaf? && q <= k && k in m && at[q].leaf.key != k
      ensures Misleads(m)
    {
      hide Valid, Ascending, AllProper;
      assert MisleadsAt(m, k);
    }

    /** A hidden leaf comes behind the one that hides it, even if its key is smaller. */
    lemma TwinMisleads(m: map<Key, Value>, p: Path, q: Path, prefix: Key)
      requires AllProper(at) && ShowsTwin(p, q, prefix) && Less(twin.leaf.key, at[q].leaf.key)
      ensures Misleads(m)
    {
      hide Valid, AllProper, Less, Adjacent, Ascending;
      forall out | Lists(prefix, out) ensures !ListsAll(m, prefix, out) {
        Descends(out, at[q].leaf.key, twin.leaf.key);
      }
      assert MisleadsAt(m, prefix);
    }

    lemma StrayMisleads(p: Path)
      requires Valid() && Misled(Now(), p)
      ensures Misleads(contents)
    {
      hide Ascending, Misled, ListsAll, AllProper, Tidy, Good, Looks;
      assert MisleadsAt(contents, p);
    }

    /** What a Set with this outcome has made of a store. */
    ghost predicate Done(t: Tree, m: map<Key, Value>, r: Passage, key: Key, value: Value)
      reads this, at.Values, Hidden()
    {
      match r
      case Stored => Valid() && contents == m[key := value] && Explained(t, Now(), key) && (Tame(t) ==> Tame(Now()))
      case Strayed => Valid() && contents == m[key := value] && Explained(t, Now(), key) && Misleads(contents)
      case Lost => Searchable() && OneLost(m, contents, key, value) && Misleads(m[key := value])
      case _ => Valid() && contents == m && Now() == t
    }

    /** `addChild` with a new leaf. Where its place is that of a leaf, one of the two keys is no longer found. */
    method NewChild(n: Node, ghost p: Path, b: byte, key: Key, value: Value)
      requires Valid() && p in at && at[p] == n && n.leaf.NoLeaf? && |p| + |n.prefix| <= |key|
      requires OnWay(Next(p, n.Look(), b), key)
      requires b in n.Kids() ==> Taken(n.Kids()[b].leaf, key)
      modifies this`at, this`contents, this`twin, n
      ensures n.prefix == old(n.prefix) && n.leaf == old(n.leaf) && AllProper(at)
      ensures forall x :: x in at.Values && x !in old(at.Values) ==> fresh(x)
      ensures Done(old(Now()), old(contents), if b in old(n.Kids()) then Lost else Stored, key, value)
      ensures b !in old(n.Kids()) ==> forall x :: old(Misled(Now(), x)) ==> Misled(Now(), x)
    {
      hide Good, Next, Node.Proper, Node.Kids, Known, Looks, AllProper, Tidy, Twins, OnWay, Misled, Misleads, Tame,
           Explained, Overlap, Ignores, Node.Twin;
      LooksAt(at, p);
      ghost var t, m, v, q := Now(), contents, n.Look(), Next(p, n.Look(), b);
      NextLonger(p, v, b);
      AtInjective(t, m, p);
      RootLonger(p, v, b);
      var c := new Node.MakeLeaf(key, value);
      if b in v.kids {
        KidPlace(t, m, p, b);
        LooksAt(at, q);
      }
      NewPlace(t, m, p, b, c, key, value);
      ghost var kept := Ignores(n, b);
      HangChild(at, n, p, b, c, q);
      if b in v.kids && kept {
        TidyTwins(at, twin);
        MissingMisleads(m[key := value], key);
      } else if b in v.kids {
        Displace(n, t, p, b, c, key, value);
      } else {
        Place(t, AddLeaf(t, p, b, c, key, value), q, c, key, value);
      }
    }

    /** A new leaf has found a place of its own. */
    ghost method Place(t: Tree, u: Tree, q: Path, c: Node, key: Key, value: Value)
      requires AllProper(at[q := c]) && Tidy(at[q := c]) && Tree(at[q := c], Looks(at[q := c])) == u
      requires Good(u, contents[key := value], {}) && Explained(t, u, key) && (Tame(t) ==> Tame(u))
      requires root != null && [] in at && at[[]] == root && q != []
      modifies this`at, this`contents
      ensures at == old(at)[q := c] && Done(t, old(contents), Stored, key, value) && Now() == u
    {
      hide Good, Looks, AllProper, Tidy, Explained, Tame;
      at, contents := at[q := c], contents[key := value];
    }

    /** The leaf of another key has lost its place to a new one. */
    ghost method Displace(n: Node, t: Tree, p: Path, b: byte, c: Node, key: Key, value: Value)
      requires p in at && at[p] == n && n.leaf.NoLeaf? && p in t.look && t.look[p].prefix == n.prefix
      requires var q := Next(p, t.look[p], b);
               && p != q && q in at && q != [] && q in t.look && t.look[q].leaf == at[q].leaf && Taken(at[q].leaf, key)
               && at[q].leaf.key in contents && key !in contents && OnWay(q, key) && |q| <= |key| + 1
               && AllProper(at[q := c]) && c.leaf == Leaf(key, value)
               && Good(Tree(at[q := c], Looks(at[q := c])), (contents - {at[q].leaf.key})[key := value], {})
               && (!n.Small() ==> Tidy(at[q := c])) && Twins(at[q := c], at[q]) && (n.Small() ==> n.Twin(c, at[q]))
      requires root != null && [] in at && at[[]] == root
      modifies this`at, this`contents, this`twin
      ensures at == old(at)[Next(p, t.look[p], b) := c]
      ensures Searchable() && OneLost(old(contents), contents, key, value) && Misleads(old(contents)[key := value])
    {
      hide Good, Next, Node.Proper, Looks, AllProper, Tidy, Twins, OnWay, Misleads, Node.Twin, Overlap;
      var q, l, m := Next(p, t.look[p], b), at[Next(p, t.look[p], b)].leaf.key, contents;
      twin := at[q];
      at := at[q := c];
      contents := (m - {l})[key := value];
      if !n.Small() {
        MissingMisleads(m[key := value], l);
      } else if Term(key) <= l {
        TermWithin(q, key, l);
        OtherMisleads(m[key := value], q, l);
      } else {
        OverlapBelow(l, key);
        TwinMisleads(m[key := value], p, q, p + n.prefix);
      }
    }

    /** A node becomes an inner node with one child, which takes over what the node was. */
    method PutAbove(n: Node, ghost p: Path, u: seq<byte>, c: byte, nn: Node, ghost key: Key)
      requires Valid() && p in at && at[p] == n && nn.Proper() && nn.Single() && nn !in at.Values
      requires (nn.leaf.NoLeaf? ==> !nn.Bare()) && CanSplit(Now(), p, u, c, nn, nn.Look())
      requires n.leaf.Leaf? ==> p + u <= key && (u != [] ==> n.leaf.key != key && p + u <= n.leaf.key)
      modifies this`at, n
      ensures Valid() && at == old(at)[p + u + [c] := nn] && n.Proper() && n.Look() == View(u, NoLeaf, map[c := nn])
      ensures Now() == Split(old(Now()), p, u, c, nn, old(nn.Look())) && Explained(old(Now()), Now(), key)
      ensures old(Tame(Now())) && (old(n.leaf.Leaf?) ==> |p| + |u| <= |old(n.leaf.key)|) ==> Tame(Now())
    {
      hide Good, Node.Proper, Known, Looks, AllProper, CanSplit, Tidy, Explained, Tame;
      ghost var t, q, below := Now(), p + u + [c], nn.Look();
      LooksAt(at, p);
      AtInjective(t, contents, p);
      SplitAbsent(t, p, u, c, nn, below) by { GoodNested(t, contents); }
      SplitStep(t, contents, p, u, c, nn, below);
      SplitExplained(t, p, u, c, nn, below, key);
      if Tame(t) && (n.leaf.Leaf? ==> |p| + |u| <= |n.leaf.key|) {
        SplitBelowIs(t, p, u, c, nn, below);
        SplitTame(t, p, u, c, nn, below);
      }
      Hoist(at, n, p, u, c, nn, q);
      at := at[q := nn];
      assert Now() == Split(t, p, u, c, nn, below);
    }

    /** The key parts from a node's prefix inside it: the node is split there. */
    method SplitPrefixAt(n: Node, ghost p: Path, depth: nat, mismatch: nat, key: Key, value: Value)
      requires Valid() && p in at && at[p] == n && n.leaf.NoLeaf?
      requires depth == |p| && p <= key && mismatch < |n.prefix| && depth + |n.prefix| <= |key|
      requires key[depth..depth + mismatch] == n.prefix[..mismatch] && key[depth + mismatch] != n.prefix[mismatch]
      modifies this`at, this`contents, this`twin, n
      ensures Done(old(Now()), old(contents), Stored, key, value)
      ensures forall x :: x in at.Values && x !in old(at.Values) ==> fresh(x)
    {
      hide Good, Node.Proper, Looks, AllProper, Node.Kids, Tidy, Explained, Tame, OnWay;
      LooksAt(at, p);
      TidyAt(at, p);
      ghost var t, m, v := Now(), contents, n.Look();
      var u, c, rest := n.prefix[..mismatch], n.prefix[mismatch], n.prefix[mismatch + 1..];
      var nn := new Node.Lower(n, rest);
      var b: byte := if depth + mismatch < |key| then key[depth + mismatch] else 0;
      PrefixParts(p, v, u, c, rest, key, b);
      TermOnWay(p + u + [b], key);
      assert CanSplit(Now(), p, u, c, nn, nn.Look());
      PutAbove(n, p, u, c, nn, key);
      ghost var t1 := Now();
      NewChild(n, p, b, key, value);
      DoneAfter(t, t1, m, Stored, key, value, p);
    }

    /** One change after another. */
    lemma DoneAfter(t: Tree, u: Tree, m: map<Key, Value>, r: Passage, key: Key, value: Value, p: Path)
      requires Done(u, m, if r == Lost then Lost else Stored, key, value)
      requires r == Stored || r == Strayed ==> Explained(t, u, key)
      requires r == Stored ==> (Tame(t) ==> Tame(u))
      requires r == Stored || r == Lost || (r == Strayed && AllProper(at) && Misled(Now(), p))
      ensures Done(t, m, r, key, value)
    {
      hide Good, Looks, AllProper, Tidy, Explained, Tame, Misled, Misleads, OneLost, Twins;
      if r != Lost {
        ExplainedOn(t, u, Now(), key);
      }
      if r == Strayed {
        StrayMisleads(p);
      }
    }

    /** Another key reaches a leaf: both go below the bytes they share. */
    method SplitLeaf(n: Node, ghost p: Path, depth: nat, key: Key, value: Value) returns (r: Passage)
      requires Valid() && p in at && at[p] == n && n.leaf.Leaf? && n.leaf.key != key
      requires depth == |p| && p <= key
      modifies this`at, this`contents, this`twin, n
      ensures r == if old(Doubles(p, n.leaf.key, key)) then Lost else if p <= old(n.leaf.key) then Stored else Strayed
      ensures Done(old(Now()), old(contents), r, key, value)
      ensures r == Stored ==> n.leaf.NoLeaf? && Shared(p + n.prefix, old(n.leaf.key), key)
      ensures r == Strayed ==> Misled(Now(), p)
      ensures forall x :: x in at.Values && x !in old(at.Values) ==> fresh(x)
    {
      hide Good, Node.Proper, Looks, AllProper, Node.Kids, CanSplit, Tidy, Shared, OnWay, Overlap, Doubles, Explained,
           Tame, Misled, Misleads, OneLost, Twins, Done;
      var oldKey, oldValue := n.leaf.key, n.leaf.value;
      LooksAt(at, p);
      ghost var t, m := Now(), contents;
      LeafHere(t, m, p);
      var oldLeaf := new Node.MakeLeaf(oldKey, oldValue);
      var u, c, b := PartAt(p, oldKey, key, depth);
      LeafSplits(t, p, u, c, oldLeaf, oldLeaf.Look());
      r := if b == c then Lost else if depth <= |oldKey| then Stored else Strayed;
      PutAbove(n, p, u, c, oldLeaf, key);
      ghost var t1 := Now();
      if r == Strayed {
        LeftBehind(t, p, u, c, oldLeaf, oldLeaf.Look());
      }
      NewChild(n, p, b, key, value);
      DoneAfter(t, t1, m, r, key, value, p);
    }

    method SetLeaf(n: Node, ghost p: Path, value: Value)
      requires Valid() && p in at && at[p] == n && n.leaf.Leaf?
      modifies this`contents, n
      ensures Done(old(Now()), old(contents), Stored, old(n.leaf.key), value) && n.leaf == Leaf(old(n.leaf.key), value)
    {
      hide Good, Node.Proper, Looks, AllProper, Node.Kids, Tidy, Explained, Tame;
      ghost var t := Now();
      LooksAt(at, p);
      AtInjective(t, contents, p);
      SetValueStep(t, contents, p, value);
      SetValueExplained(t, p, value, n.leaf.key);
      if Tame(t) {
        SetValueTame(t, p, value);
      }
      contents := contents[n.leaf.key := value];
      Relabel(at, n, p, value);
      assert Now() == SetValue(t, p, value);
    }

    /** `Stuck` is a Set that waits for ever for the lock it holds, `Panicked` one that follows a nil pointer. After a
        `Lost` one, one key is no longer found; after a `Strayed` one all are, but a prefix search lists one too
        many. */
    method Set(key: Key, value: Value) returns (r: Passage)
      requires Valid()
      modifies this, at.Values
      ensures r == old(Fate(Now(), key)) && Done(old(Now()), old(contents), r, key, value)
      ensures forall x :: x in at.Values && x !in old(at.Values) ==> fresh(x)
      ensures r == Strayed ==> exists p :: old(StraysAt(Now(), p, key)) && Misled(Now(), p)
      ensures old(root == null) ==> root != null && root.leaf == Leaf(key, value)
      ensures old(root != null && root.leaf.Leaf? && root.leaf.key != key) && r == Stored ==>
                root != null && root.leaf.NoLeaf? && Shared(root.prefix, old(root.leaf.key), key)
    {
      hide Good, Through, Looks, AllProper, Next, Node.Proper, Node.Kids, Fate, Tidy, Shared, Explained, Tame, Twins,
           OneLost, Misleads;
      ghost var t, m := Now(), contents;
      if root == null {
        NoNodes(t, contents);
        NoWay(t, contents, key);
        FirstLeaf(key, value);
        return Stored;
      }
      var n, depth := root, 0;
      ghost var p: Path, was := [], root.leaf;
      while n.leaf.NoLeaf?
        invariant Valid() && Now() == t && at == old(at) && contents == old(contents) && root == old(root)
        invariant p in at && at[p] == n && depth == |p| && p <= key
        invariant root.leaf == was && (p != [] ==> was.NoLeaf?)
        decreases |key| - |p|
      {
        r, n, depth, p := Step(n, p, depth, key, value);
        if r != Passed {
          return;
        }
      }
      r := MeetLeaf(n, p, depth, key, value);
      assert p == [] ==> n == root && p + n.prefix == n.prefix;
    }

    /** From an inner node to the next one on the way of a key; where there is none, the key is stored. */
    method Step(n: Node, ghost p: Path, depth: nat, key: Key, value: Value)
      returns (r: Passage, child: Node, d: nat, ghost q: Path)
      requires Valid() && p in at && at[p] == n && n.leaf.NoLeaf? && depth == |p| && p <= key
      modifies this`at, this`contents, this`twin, at.Values
      ensures r != Strayed && (r != Passed ==> r == old(Fate(Now(), key)))
      ensures r == Passed ==> q in at && at[q] == child && d == |q| && |p| < |q| && q <= key
      ensures r == Passed ==> unchanged(this) && unchanged(at.Values)
      ensures Done(old(Now()), old(contents), r, key, value)
      ensures forall x :: x in at.Values && x !in old(at.Values) ==> fresh(x)
    {
      hide Good, Through, Looks, AllProper, Next, Node.Proper, Node.Kids, Fate, Tidy, Explained, Tame, Twins, OneLost,
           Misleads, OnWay, Overlap;
      ghost var t := Now();
      LooksAt(at, p);
      ghost var v := n.Look();
      child, d, q := n, depth, p;
      if n.prefix != [] {
        r := PassPrefix(n, p, depth, key, value);
        if r != Passed {
          return;
        }
        d := d + |n.prefix|;
      }
      PrefixMatched(p, v, key);
      var b: byte := if d >= |key| then 0 else key[d];
      var c := n.FindChild(b);
      KidOnWay(p, v, Term(key), b);
      TermOnWay(Next(p, v, b), key);
      if c == null {
        NoKid(p, v, Term(key), b);
        EndsInside(t, contents, p, key);
        NewChild(n, p, b, key, value);
        r := Stored;
        return;
      }
      KidPlace(t, contents, p, b);
      NextLonger(p, v, b);
      q := Next(p, v, b);
      LooksAt(at, q);
      if d >= |key| {
        EndsAtTerm(t, contents, q, key);
        if c.leaf.NoLeaf? {
          r := Panicked;
        } else if c.leaf.key == key {
          SetLeaf(c, q, value);
          r := Stored;
        } else {
          TermTaken(t, contents, q, key);
          NewChild(n, p, 0, key, value);
          r := Lost;
        }
        return;
      }
      r, child, d := Passed, c, d + 1;
    }

    /** The way of a key ends at a leaf, its own or another's. */
    method MeetLeaf(n: Node, ghost p: Path, depth: nat, key: Key, value: Value) returns (r: Passage)
      requires Valid() && p in at && at[p] == n && n.leaf.Leaf? && depth == |p| && p <= key
      modifies this`at, this`contents, this`twin, n
      ensures r == old(Fate(Now(), key)) && Done(old(Now()), old(contents), r, key, value)
      ensures r == Stored && old(n.leaf.key) != key ==> n.leaf.NoLeaf? && Shared(p + n.prefix, old(n.leaf.key), key)
      ensures r == Strayed ==> old(StraysAt(Now(), p, key)) && Misled(Now(), p)
      ensures forall x :: x in at.Values && x !in old(at.Values) ==> fresh(x)
    {
      hide Good, Looks, AllProper, Node.Proper, Node.Kids, Tidy, Doubles, Shared, Fate, Explained, Tame, Twins, OneLost,
           Misleads;
      LooksAt(at, p);
      EndsAtLeaf(Now(), contents, p, key);
      if n.leaf.key == key {
        SetLeaf(n, p, value);
        return Stored;
      }
      r := SplitLeaf(n, p, depth, key, value);
    }

    /** Compares a node's prefix with the key; where they part, the node is split and the key stored. */
    method PassPrefix(n: Node, ghost p: Path, depth: nat, key: Key, value: Value) returns (r: Passage)
      requires Valid() && p in at && at[p] == n && n.leaf.NoLeaf? && depth == |p| && p <= key
      modifies this`at, this`contents, this`twin, n
      ensures r != Strayed && (r != Passed ==> r == old(Fate(Now(), key)))
      ensures r == Passed ==> depth + |n.prefix| <= |key| && key[depth..depth + |n.prefix|] == n.prefix
      ensures r == Passed ==> unchanged(this) && unchanged(n)
      ensures Done(old(Now()), old(contents), r, key, value)
      ensures forall x :: x in at.Values && x !in old(at.Values) ==> fresh(x)
    {
      hide Good, Through, Looks, AllProper, Node.Proper, Node.Kids, Fate, Tidy, Explained, Tame;
      ghost var t := Now();
      LooksAt(at, p);
      ghost var v := n.Look();
      var pxLen := |n.prefix|;
      if depth + pxLen > |key| {
        TooShort(p, v, key);
        EndsInside(t, contents, p, key);
        return Stuck;
      }
      var mismatch := Mismatch(n.prefix, key, depth);
      if mismatch < pxLen {
        Differs(p, v, key, mismatch);
        EndsInside(t, contents, p, key);
        SplitPrefixAt(n, p, depth, mismatch, key, value);
        return Stored;
      }
      return Passed;
    }

    /** The first key of a store. */
    method FirstLeaf(key: Key, value: Value)
      requires Valid() && root == null && contents == map[]
      modifies this
      ensures Done(old(Now()), old(contents), Stored, key, value) && forall x :: x in at.Values ==> fresh(x)
      ensures root != null && root.leaf == Leaf(key, value) && at == map[[] := root]
    {
      hide Node.Proper, Node.Kids, Good;
      root := new Node.MakeLeaf(key, value);
      at, contents := map[[] := root], map[key := value];
      assert Looks(at) == map[[] := View([], Leaf(key, value), map[])];
      OneGood(root, key, value);
    }

    // ----- Del

    /** Takes a node without children out of its place. */
    ghost method TakeOut(p: Path)
      requires AllProper(at) && Tidy(at - {p}) && Good(Now(), contents, {}) && p in at && at[p].Kids() == map[]
      modifies this`at, this`contents
      ensures AllProper(at) && Tidy(at) && at == old(at) - {p} && contents == old(Without(contents, at[p].leaf))
      ensures Good(Now(), contents, {p}) && Now() == Drop(old(Now()), p)
    {
      hide Good, Node.Proper, Node.Kids, Without, Tidy;
      var t := Now();
      LooksAt(at, p);
      DropStep(t, contents, p);
      contents := Without(contents, at[p].leaf);
      at := at - {p};
      assert Looks(at) == t.look - {p};
    }

    /** The node that remains, or nothing when it is to be forgotten by its parent. A key that is not stored may
        lead anywhere, but nothing changes. */
    method DelNode(n: Node, ghost p: Path, key: Key, depth: nat, ghost left: nat) returns (r: Node?)
      requires Valid() && p in at && at[p] == n && depth <= |key| && forall x :: x in at ==> |x| <= |p| + left
      requires key in contents ==> OnWay(p, key) && depth == Read(p, key)
      modifies this`at, this`contents, at.Values
      ensures AllProper(at) && Tidy(at) && contents == old(contents) - {key}
      ensures if r == null then Good(Now(), contents, {p}) else r == n && p in at && Good(Now(), contents, {})
      ensures Elsewhere(old(Now()), Now(), p) && (key !in old(contents) ==> r == n)
      decreases left, 1
    {
      hide Good, OnWay, Looks, AllProper, Next, Node.Proper, Node.Kids, Elsewhere, Tidy;
      ghost var t := Now();
      LooksAt(at, p);
      ghost var v := n.Look();
      SameElsewhere(t, contents, p);
      if n.leaf.Leaf? {
        LeafHere(t, contents, p);
        if n.leaf.key == key {
          TidyBut(at, p);
          TakeOut(p);
          DropElsewhere(t, t, p);
          return null;
        }
        LeafNotKey(t, contents, p, key);
        return n;
      }
      OnTrack(t, contents, p, key);
      var d := depth;
      if n.prefix != [] {
        var pxLen := |n.prefix|;
        if depth + pxLen > |key| || key[depth..depth + pxLen] != n.prefix {
          return n;
        }
        d := d + pxLen;
      }
      var b: byte := if d < |key| then key[d] else 0;
      var child := n.FindChild(b);
      ghost var c := b;
      if child == null {
        child := n.FindChild(0);
        c := 0;
      }
      if child == null {
        return n;
      }
      r := DelChild(n, p, key, d, b, child, c, left);
    }

    /** Deletes below a child and forgets the child if nothing is left of it. */
    method DelChild(n: Node, ghost p: Path, key: Key, d: nat, b: byte, child: Node, ghost c: byte, ghost left: nat)
      returns (r: Node?)
      requires Valid() && p in at && at[p] == n && n.leaf.NoLeaf? && forall x :: x in at ==> |x| <= |p| + left
      requires d <= |key| && c in n.Kids() && n.Kids()[c] == child
      requires key in contents ==>
                 && c == b && OnWay(Next(p, n.Look(), b), key)
                 && Read(Next(p, n.Look(), b), key) == if d < |key| then d + 1 else d
      modifies this`at, this`contents, at.Values
      ensures AllProper(at) && Tidy(at) && contents == old(contents) - {key}
      ensures if r == null then Good(Now(), contents, {p}) else r == n && p in at && Good(Now(), contents, {})
      ensures Elsewhere(old(Now()), Now(), p) && (key !in old(contents) ==> r == n)
      decreases left, 0
    {
      hide Good, Looks, AllProper, Next, Node.Proper, Node.Kids, Elsewhere, Tidy, OnWay;
      ghost var t := Now();
      LooksAt(at, p);
      ghost var q := Next(p, n.Look(), c);
      KidPlace(t, contents, p, c);
      KidBelow(t, contents, p, c);
      LooksAt(at, q);
      var rest;
      if d < |key| {
        rest := DelNode(child, q, key, d + 1, left - 1);
      } else {
        rest := DelNode(child, q, key, d, left - 1);
      }
      ghost var u := Now();
      ElsewhereAt(t, u, q, p);
      LooksAt(at, p);
      if rest == null {
        PlacedAt(u, contents, {q}, p);
        ForgetStep(u, contents, p, b);
        Unhang(at, n, p, b);
        assert Now() == Forget(u, p, b);
        ForgetElsewhere(t, u, p, q, b);
      } else {
        TidyAt(at, p);
        TidyBut(at, p);
        WiderElsewhere(t, u, p, q);
      }
      r := Prune(n, p, t);
    }

    /** An inner node that has become empty goes too. */
    method Prune(n: Node, ghost p: Path, ghost t: Tree) returns (r: Node?)
      requires AllProper(at) && Tidy(at - {p}) && Good(Now(), contents, {}) && p in at && at[p] == n && n.Single()
      requires n.leaf.NoLeaf? && Elsewhere(t, Now(), p)
      modifies this`at, this`contents
      ensures AllProper(at) && Tidy(at) && contents == old(contents)
      ensures if r == null then Good(Now(), contents, {p}) else r == n && p in at && Good(Now(), contents, {})
      ensures Elsewhere(t, Now(), p) && (!old(n.Bare()) ==> r == n)
    {
      hide Good, Looks, AllProper, Node.Proper, Node.Kids, Elsewhere, Tidy;
      LooksAt(at, p);
      if n.Bare() {
        BareHasNone(n);
        ghost var w := Now();
        TakeOut(p);
        DropElsewhere(t, w, p);
        return null;
      }
      TidyAgain(at, p);
      return n;
    }

    method Del(key: Key)
      requires Valid()
      modifies this, at.Values
      ensures Valid() && contents == old(contents) - {key}
      ensures forall x :: x in at.Values ==> x in old(at.Values)
      ensures (old(Tame(Now())) ==> Tame(Now())) && forall ever :: old(Known(Now(), ever)) ==> Known(Now(), ever)
    {
      hide Good, Looks, AllProper, Node.Proper, Node.Kids, Elsewhere, Known, Tidy, Tame;
      ghost var t := Now();
      if root == null {
        NoNodes(t, contents);
        return;
      }
      ghost var deepest := Deepest(at.Keys);
      var r := DelNode(root, [], key, 0, deepest);
      ElsewhereSubset(t, Now());
      if r == null {
        HoleAtRoot(Now(), contents);
      }
      root := r;
    }

    // ----- ordered scans

    /** A hidden leaf is listed right behind the one that hides it. */
    ghost predicate TwinListed(n: Node, keep: Key -> bool, out: seq<Key>)
      reads this, at.Values, Hidden(), n
    {
      forall q :: q in at && at[q].leaf.Leaf? && twin != null && twin.leaf.Leaf? && n.Twin(at[q], twin) &&
                  keep(at[q].leaf.key) && keep(twin.leaf.key) ==>
                    Adjacent(out, at[q].leaf.key, twin.leaf.key)
    }

    /** The wanted keys below a node, in the order its children are stored: they come out sorted. */
    method Collect(n: Node, ghost p: Path, keep: Key -> bool, ghost left: nat) returns (out: seq<Key>)
      requires Searchable() && (n.leaf.Leaf? || (p in at && at[p] == n && forall x :: x in at ==> |x| <= |p| + left))
      ensures Valid() && p in at && at[p] == n ==>
                Ascending(out) && forall k :: k in out <==> keep(k) && Under(Now(), p, k)
      ensures n.leaf.Leaf? ==> out == if keep(n.leaf.key) then [n.leaf.key] else []
      ensures n.leaf.NoLeaf? ==> TwinListed(n, keep, out)
      decreases left, 2
    {
      hide Good, Looks, AllProper, Node.Proper, Node.Kids, Under, Less, Twins, Tidy;
      if n.leaf.Leaf? {
        if p in at && at[p] == n {
          LooksAt(at, p);
          forall k ensures Under(Now(), p, k) <==> k == n.leaf.key {
            UnderLeaf(Now(), p, k) by { GoodNested(Now(), contents); }
          }
        }
        return if keep(n.leaf.key) then [n.leaf.key] else [];
      }
      LooksAt(at, p);
      if n.kind == NODE4 || n.kind == NODE16 {
        out := CollectPaired(n, p, keep, left);
      } else if n.kind == NODE48 {
        out := CollectIndexed(n, p, keep, left);
      } else {
        InnerKind(n);
        out := CollectDirect(n, p, keep, left);
      }
      if Valid() {
        GatherAll(Now(), p, keep, out) by { GoodNested(Now(), contents); }
      }
    }

    lemma ChildFacts(n: Node, p: Path, i: nat)
      requires Searchable() && p in at && at[p] == n && n.Small() && i < |n.keys|
      ensures |n.keys| == |n.children| && n.children[i] != null && n.keys[i] in n.Kids()
      ensures n.children[i] == n.Kids()[n.keys[i]] || n.children[i].leaf.Leaf?
      ensures Valid() ==> n.children[i] == n.Kids()[n.keys[i]] && forall b :: b in n.keys[..i] ==> b < n.keys[i]
    {
      hide Good, Looks, AllProper, Node.Proper, Node.Kids, Twins, Tidy, Node.Single, Node.Hides;
      LooksAt(at, p);
      TwinsAt(at, p, twin);
      ChildAt(n, i, twin);
      if Valid() {
        TidyAt(at, p);
        PairedShapeAt(n, i);
      }
    }

    method CollectPaired(n: Node, ghost p: Path, keep: Key -> bool, ghost left: nat) returns (out: seq<Key>)
      requires Searchable() && p in at && at[p] == n && n.leaf.NoLeaf? && forall x :: x in at ==> |x| <= |p| + left
      requires n.kind == NODE4 || n.kind == NODE16
      ensures Valid() ==> Gathered(Now(), p, Now().look[p].kids.Keys, keep, out)
      ensures TwinListed(n, keep, out)
      decreases left, 1
    {
      hide Good, Looks, AllProper, Node.Proper, Node.Kids, Gathered, Twins, Tidy, Adjacent, PairsListed, Node.Twin;
      LooksAt(at, p);
      PairedShape(n);
      out := [];
      ghost var done: set<byte> := {};
      GatherNone(Now(), p, keep);
      NoPairs(keep);
      assert n.children[..0] == [];
      for i := 0 to |n.children|
        invariant forall b :: b in done <==> b in n.keys[..i]
        invariant Valid() ==> Gathered(Now(), p, done, keep, out)
        invariant PairsListed(n.children[..i], keep, out)
      {
        ChildFacts(n, p, i);
        ghost var before := out;
        out := CollectKid(n, p, n.keys[i], n.children[i], keep, left, done, out);
        done := done + {n.keys[i]};
        assert n.keys[..i + 1] == n.keys[..i] + [n.keys[i]];
        assert n.children[..i + 1] == n.children[..i] + [n.children[i]];
        PairsMore(n.children[..i], n.children[i], keep, before, out);
      }
      assert n.keys[..|n.children|] == n.keys && n.children[..|n.children|] == n.children;
      assert done == n.Kids().Keys;
      forall q | q in at && at[q].leaf.Leaf? && twin != null && twin.leaf.Leaf? && n.Twin(at[q], twin) &&
                 keep(at[q].leaf.key) && keep(twin.leaf.key)
        ensures Adjacent(out, at[q].leaf.key, twin.leaf.key)
      {
        TwinShows(n, at[q], twin, keep, out);
      }
    }

    method CollectIndexed(n: Node, ghost p: Path, keep: Key -> bool, ghost left: nat) returns (out: seq<Key>)
      requires Searchable() && p in at && at[p] == n && n.leaf.NoLeaf? && forall x :: x in at ==> |x| <= |p| + left
      requires n.kind == NODE48
      ensures Valid() ==> Gathered(Now(), p, Now().look[p].kids.Keys, keep, out)
      decreases left, 1
    {
      hide Good, Looks, AllProper, Node.Proper, Node.Kids, Gathered, Twins, Tidy;
      LooksAt(at, p);
      IndexedShape(n);
      out := [];
      ghost var done: set<byte> := {};
      GatherNone(Now(), p, keep);
      for i := 0 to 256
        invariant forall b :: b in done <==> b < i && b in n.Kids()
        invariant Valid() ==> Gathered(Now(), p, done, keep, out)
      {
        if n.index[i] != EMPTY_INDEX {
          out := CollectKid(n, p, i, n.children[n.index[i]], keep, left, done, out);
          done := done + {i};
        }
      }
      assert done == n.Kids().Keys;
    }

    method CollectDirect(n: Node, ghost p: Path, keep: Key -> bool, ghost left: nat) returns (out: seq<Key>)
      requires Searchable() && p in at && at[p] == n && n.leaf.NoLeaf? && forall x :: x in at ==> |x| <= |p| + left
      requires n.kind == NODE256
      ensures Valid() ==> Gathered(Now(), p, Now().look[p].kids.Keys, keep, out)
      decreases left, 1
    {
      hide Good, Looks, AllProper, Node.Proper, Node.Kids, Gathered, Twins, Tidy;
      LooksAt(at, p);
      DirectShape(n);
      out := [];
      ghost var done: set<byte> := {};
      GatherNone(Now(), p, keep);
      for i := 0 to 256
        invariant forall b :: b in done <==> b < i && b in n.Kids()
        invariant Valid() ==> Gathered(Now(), p, done, keep, out)
      {
        if n.children[i] != null {
          out := CollectKid(n, p, i, n.children[i], keep, left, done, out);
          done := done + {i};
        }
      }
      assert done == n.Kids().Keys;
    }

    /** One more child collected. */
    method CollectKid(n: Node, ghost p: Path, ghost b: byte, child: Node, keep: Key -> bool, ghost left: nat,
                      ghost done: set<byte>, before: seq<Key>)
      returns (out: seq<Key>)
      requires Searchable() && p in at && at[p] == n && n.leaf.NoLeaf? && forall x :: x in at ==> |x| <= |p| + left
      requires b in n.Kids() && (n.Kids()[b] == child || child.leaf.Leaf?)
      requires Valid() ==> n.Kids()[b] == child && forall a :: a in done ==> a < b
      requires Valid() ==> Gathered(Now(), p, done, keep, before)
      ensures Valid() ==> Gathered(Now(), p, done + {b}, keep, out)
      ensures before <= out
      ensures child.leaf.Leaf? ==> out == before + if keep(child.leaf.key) then [child.leaf.key] else []
      decreases left, 0
    {
      hide Good, Looks, AllProper, Node.Proper, Node.Kids, Gathered, Under, Ascending, Twins, Tidy;
      ghost var t := Now();
      LooksAt(at, p);
      KidPlace(t, contents, p, b);
      NextLonger(p, t.look[p], b);
      ghost var q := Next(p, t.look[p], b);
      LooksAt(at, q);
      assert |q| <= |p| + left;
      var more := Collect(child, q, keep, left - 1);
      if Valid() {
        GatherStep(t, contents, p, done, b, keep, before, more) by { GoodLeaves(t, contents); }
      }
      out := before + more;
    }

    lemma ListsNothing(p: Path, prefix: Key)
      requires Searchable() && p in at && at[p].leaf.NoLeaf? && p <= prefix
      requires !(prefix <= p + at[p].prefix) && !Through(p, at[p].Look(), prefix)
      ensures Lists(prefix, [])
    {
      hide Good, Looks, AllProper, Node.Proper, Node.Kids, Twins, Tidy, Misled, Through;
      var t := Now();
      LooksAt(at, p);
      NoneThere(t, contents, p, prefix);
      forall q | q in at && q <= prefix && (at[q].leaf.Leaf? || prefix == q + at[q].prefix) ensures p == q {
        LooksAt(at, q);
        StopsOnce(t, contents, p, prefix, q);
      }
    }

    lemma ListsLeaf(p: Path, prefix: Key)
      requires Searchable() && p in at && at[p].leaf.Leaf? && p <= prefix
      ensures Lists(prefix, if prefix <= at[p].leaf.key then [at[p].leaf.key] else [])
    {
      hide Good, Looks, AllProper, Node.Proper, Node.Kids, Twins, Tidy;
      var t := Now();
      LooksAt(at, p);
      LeafHere(t, contents, p);
      forall k ensures k in contents && prefix <= k <==> k == at[p].leaf.key && prefix <= k {
        PrefixAtLeaf(t, contents, p, prefix, k);
      }
      LeafNotMisled(t, contents, p, prefix);
      forall q | q in at && q <= prefix && (at[q].leaf.Leaf? || prefix == q + at[q].prefix) ensures p == q {
        LooksAt(at, q);
        StopsOnce(t, contents, p, prefix, q);
      }
    }

    lemma ListsNode(p: Path, prefix: Key, out: seq<Key>)
      requires Searchable() && p in at && at[p].leaf.NoLeaf? && p <= prefix <= p + at[p].prefix
      requires Valid() ==> Ascending(out) && forall k :: k in out <==> Under(Now(), p, k)
      requires TwinListed(at[p], k => true, out)
      ensures Lists(prefix, out)
    {
      hide Good, Looks, AllProper, Node.Proper, Node.Kids, Twins, Tidy, Ascending, Under, Adjacent;
      var t := Now();
      LooksAt(at, p);
      if Valid() {
        InsideExactly(t, contents, p, prefix, out);
      }
      forall q | q in at && q <= prefix && (at[q].leaf.Leaf? || prefix == q + at[q].prefix) ensures p == q {
        LooksAt(at, q);
        StopsOnce(t, contents, p, prefix, q);
      }
    }

    lemma MisledReply(prefix: Key, out: seq<Key>, right: seq<Key>)
      requires Valid() && Misled(Now(), prefix) && Lists(prefix, out) && ListsAll(contents, prefix, right)
      ensures out != right
    {
    }

    /** Right for every prefix, except that at a node past the end of a key below it that key is listed too. */
    method PrefixKeys(prefix: Key) returns (out: seq<Key>)
      requires Searchable()
      ensures Lists(prefix, out)
    {
      hide Good, Through, Looks, AllProper, Next, Node.Proper, Node.Kids, Twins, Tidy, Lists;
      ghost var t := Now();
      if root == null {
        NoNodes(t, contents);
        ListsNone(prefix);
        return [];
      }
      var n, depth := root, 0;
      ghost var p: Path := [];
      while n.leaf.NoLeaf?
        invariant p in at && at[p] == n && depth == |p| && p <= prefix
        decreases |prefix| - |p|
      {
        LooksAt(at, p);
        ghost var v := n.Look();
        if n.prefix != [] {
          var pxLen := |n.prefix|;
          if depth + pxLen > |prefix| {
            if n.prefix[..|prefix| - depth] == prefix[depth..] {
              InsidePrefix(p, v, prefix);
              out := CollectAll(n, p, prefix);
              return;
            }
            OutsidePrefix(p, v, prefix);
            ListsNothing(p, prefix);
            return [];
          }
          if n.prefix != prefix[depth..depth + pxLen] {
            OtherPrefix(p, v, prefix);
            ListsNothing(p, prefix);
            return [];
          }
          depth := depth + pxLen;
        }
        WholePrefix(p, v, prefix);
        if depth >= |prefix| {
          out := CollectAll(n, p, prefix);
          return;
        }
        var c := n.FindChild(prefix[depth]);
        if c == null {
          NoKid(p, v, prefix, prefix[depth]);
          ListsNothing(p, prefix);
          return [];
        }
        KidPlace(t, contents, p, prefix[depth]);
        KidOnWay(p, v, prefix, prefix[depth]);
        NextLonger(p, v, prefix[depth]);
        p := Next(p, v, prefix[depth]);
        n, depth := c, depth + 1;
      }
      ListsLeaf(p, prefix);
      return if prefix <= n.leaf.key then [n.leaf.key] else [];
    }

    lemma ListsNone(prefix: Key)
      requires Searchable() && root == null && contents == map[]
      ensures Lists(prefix, [])
    {
      hide Good, Twins, Tidy;
      assert Now().look.Keys == {};
    }

    /** A prefix that ends at a node: everything below it. */
    method CollectAll(n: Node, ghost p: Path, prefix: Key) returns (out: seq<Key>)
      requires Searchable() && p in at && at[p] == n && n.leaf.NoLeaf? && p <= prefix <= p + n.prefix
      ensures Lists(prefix, out)
    {
      hide Good, Looks, AllProper, Node.Proper, Node.Kids, Under, Ascending, Twins, Tidy, Lists, TwinListed;
      LooksAt(at, p);
      ghost var left := Deepest(at.Keys);
      out := Collect(n, p, k => true, left);
      ListsNode(p, prefix, out);
    }

    /** The keys are collected in ascending order, so sorting them afterwards changes nothing. */
    method RangeKeys(start: Key, end: Key) returns (out: seq<Key>)
      requires Valid()
      ensures Ascending(out) && forall k :: k in out <==> k in contents && AtMost(start, k) && AtMost(k, end)
    {
      hide Good, Looks, AllProper, Node.Proper, Node.Kids, Under, Ascending, AtMost, Tidy, Twins;
      if root == null {
        NoNodes(Now(), contents);
        return NoKeys();
      }
      TidyTwins(at, twin);
      ghost var left := Deepest(at.Keys);
      out := Collect(root, [], k => AtMost(start, k) && AtMost(k, end), left);
      forall k ensures Under(Now(), [], k) <==> k in contents {
        UnderRoot(Now(), contents, k);
      }
    }
  }
}
