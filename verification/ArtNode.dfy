/** Nodes of the adaptive radix tree: four ways to hold the map from a byte to a child. */
module ArtNode {
  import opened Bytes

  datatype Leaf = NoLeaf | Leaf(key: Key, value: Value)

  /** What a node means, however it is stored. */
  datatype View = View(prefix: seq<byte>, leaf: Leaf, kids: map<byte, Node>)

  const NODE4 := 4
  const NODE16 := 16
  const NODE48 := 48
  const NODE256 := 256
  const EMPTY_INDEX := -1

  ghost predicate Sorted(keys: seq<byte>) {
    forall i, j :: 0 <= i < j < |keys| ==> keys[i] <= keys[j]
  }

  ghost predicate Distinct(keys: seq<byte>) {
    forall i, j :: 0 <= i < j < |keys| ==> keys[i] != keys[j]
  }

  /** The children beside their sorted bytes, as the two small kinds of node hold them. A byte may come twice; a
      search finds the first. */
  ghost predicate Paired(keys: seq<byte>, children: seq<Node?>) {
    |keys| == |children| && Sorted(keys) && forall i :: 0 <= i < |children| ==> children[i] != null
  }

  ghost function PairedKids(keys: seq<byte>, children: seq<Node?>): map<byte, Node>
    requires Paired(keys, children)
  {
    map b: byte | b in keys :: children[IndexOf(keys, b)]
  }

  /** The first place of a byte. */
  ghost function IndexOf(keys: seq<byte>, b: byte): (i: nat)
    requires b in keys
    ensures i < |keys| && keys[i] == b && b !in keys[..i]
  {
    if keys[0] == b then 0 else 1 + IndexOf(keys[1..], b)
  }

  lemma IndexIs(keys: seq<byte>, b: byte, i: nat)
    requires i < |keys| && keys[i] == b && b !in keys[..i]
    ensures IndexOf(keys, b) == i
  {
    var j := IndexOf(keys, b);
    assert j == i;
  }

  /** The last place of a byte. */
  ghost function LastOf(keys: seq<byte>, b: byte): (i: nat)
    requires b in keys
    ensures i < |keys| && keys[i] == b && b !in keys[i + 1..]
  {
    if b in keys[1..] then
      var i := LastOf(keys[1..], b);
      assert keys[1..][i + 1..] == keys[i + 2..];
      1 + i
    else 0
  }

  lemma LastIs(keys: seq<byte>, b: byte, i: nat)
    requires i < |keys| && keys[i] == b && forall j :: i < j < |keys| ==> keys[j] != b
    ensures LastOf(keys, b) == i
  {
    assert b !in keys[LastOf(keys, b) + 1..];
  }

  ghost function LastKids(keys: seq<byte>, children: seq<Node?>): map<byte, Node>
    requires Paired(keys, children)
  {
    map b: byte | b in keys :: children[LastOf(keys, b)]
  }

  /** The first place whose byte is not below a given one. */
  ghost function PlaceOf(keys: seq<byte>, b: byte): (i: nat)
    ensures i <= |keys| && (forall j :: 0 <= j < i ==> keys[j] < b) && (i < |keys| ==> keys[i] >= b)
  {
    if keys == [] || keys[0] >= b then 0 else 1 + PlaceOf(keys[1..], b)
  }

  /** Each byte has its own slot; slots of removed children stay behind. */
  ghost predicate Indexed(index: seq<int>, children: seq<Node?>) {
    && |index| == 256
    && (forall b: byte :: index[b] == EMPTY_INDEX || (0 <= index[b] < |children| && children[index[b]] != null))
    && (forall a: byte, b: byte :: index[a] == index[b] && index[a] != EMPTY_INDEX ==> a == b)
  }

  ghost function IndexedKids(index: seq<int>, children: seq<Node?>): map<byte, Node>
    requires Indexed(index, children)
  {
    map b: byte | index[b] != EMPTY_INDEX :: children[index[b]]
  }

  ghost function DirectKids(children: seq<Node?>): map<byte, Node>
    requires |children| == 256
  {
    map b: byte | children[b] != null :: children[b]
  }

  lemma PairedKid(keys: seq<byte>, children: seq<Node?>, i: nat)
    requires Paired(keys, children) && i < |keys| && keys[i] !in keys[..i]
    ensures keys[i] in PairedKids(keys, children) && PairedKids(keys, children)[keys[i]] == children[i]
  {
    IndexIs(keys, keys[i], i);
  }

  lemma FirstOfDistinct(keys: seq<byte>, i: nat)
    requires Distinct(keys) && i < |keys|
    ensures keys[i] !in keys[..i]
  {
  }

  /** The map that holds each child under its byte. */
  ghost predicate Matches(keys: seq<byte>, children: seq<Node?>, m: map<byte, Node>)
    requires |keys| == |children|
  {
    && (forall i :: 0 <= i < |keys| ==> keys[i] in m && m[keys[i]] == children[i])
    && (forall b :: b in m ==> b in keys)
  }

  lemma PairedMatches(keys: seq<byte>, children: seq<Node?>)
    requires Paired(keys, children) && Distinct(keys)
    ensures Matches(keys, children, PairedKids(keys, children))
  {
    forall i | 0 <= i < |keys|
      ensures keys[i] in PairedKids(keys, children) && PairedKids(keys, children)[keys[i]] == children[i]
    {
      FirstOfDistinct(keys, i);
      PairedKid(keys, children, i);
    }
  }

  lemma MatchesPaired(keys: seq<byte>, children: seq<Node?>, m: map<byte, Node>)
    requires Paired(keys, children) && Matches(keys, children, m)
    ensures m == PairedKids(keys, children)
  {
  }

  lemma InsertedAt(keys: seq<byte>, children: seq<Node?>, pos: nat, b: byte, child: Node, ks: seq<byte>, cs: seq<Node?>)
    requires |keys| == |children| && pos <= |keys|
    requires ks == InsertAt<byte>(keys, pos, b) && cs == InsertAt<Node?>(children, pos, child)
    ensures |ks| == |cs| == |keys| + 1
    ensures forall i {:trigger ks[i]} :: 0 <= i < |ks| ==>
              ks[i] == if i < pos then keys[i] else if i == pos then b else keys[i - 1]
    ensures forall i {:trigger cs[i]} :: 0 <= i < |cs| ==>
              cs[i] == if i < pos then children[i] else if i == pos then child else children[i - 1]
  {
  }

  lemma RemovedAt(keys: seq<byte>, children: seq<Node?>, pos: nat, ks: seq<byte>, cs: seq<Node?>)
    requires |keys| == |children| && pos < |keys|
    requires ks == RemoveAt<byte>(keys, pos) && cs == RemoveAt<Node?>(children, pos)
    ensures |ks| == |cs| == |keys| - 1
    ensures forall i {:trigger ks[i]} :: 0 <= i < |ks| ==> ks[i] == if i < pos then keys[i] else keys[i + 1]
    ensures forall i {:trigger cs[i]} :: 0 <= i < |cs| ==> cs[i] == if i < pos then children[i] else children[i + 1]
  {
  }

  lemma InsertedPaired(keys: seq<byte>, children: seq<Node?>, b: byte, child: Node)
    requires Paired(keys, children)
    ensures Paired(InsertAt<byte>(keys, PlaceOf(keys, b), b), InsertAt<Node?>(children, PlaceOf(keys, b), child))
    ensures Distinct(InsertAt<byte>(keys, PlaceOf(keys, b), b)) <==> Distinct(keys) && b !in keys
  {
    hide InsertAt, Distinct;
    var pos := PlaceOf(keys, b);
    var ks, cs := InsertAt<byte>(keys, pos, b), InsertAt<Node?>(children, pos, child);
    InsertedAt(keys, children, pos, b, child, ks, cs);
    InsertedDistinct(keys, children, pos, b, child, ks, cs);
  }

  lemma InsertedDistinct(keys: seq<byte>, children: seq<Node?>, pos: nat, b: byte, child: Node, ks: seq<byte>,
                         cs: seq<Node?>)
    requires |keys| == |children| && pos <= |keys|
    requires ks == InsertAt<byte>(keys, pos, b) && cs == InsertAt<Node?>(children, pos, child)
    ensures Distinct(ks) <==> Distinct(keys) && b !in keys
  {
    hide InsertAt;
    InsertedAt(keys, children, pos, b, child, ks, cs);
    if Distinct(ks) {
      forall i, j | 0 <= i < j < |keys| ensures keys[i] != keys[j] {
        assert ks[if i < pos then i else i + 1] == keys[i] && ks[if j < pos then j else j + 1] == keys[j];
      }
      forall i | 0 <= i < |keys| ensures keys[i] != b {
        assert ks[if i < pos then i else i + 1] == keys[i] && ks[pos] == b;
      }
    }
  }

  /** A byte put before all that are not below: it is found there, and every other where it was. */
  lemma Inserted(keys: seq<byte>, children: seq<Node?>, b: byte, child: Node)
    requires Paired(keys, children)
    ensures Paired(InsertAt<byte>(keys, PlaceOf(keys, b), b), InsertAt<Node?>(children, PlaceOf(keys, b), child))
    ensures PairedKids(InsertAt<byte>(keys, PlaceOf(keys, b), b), InsertAt<Node?>(children, PlaceOf(keys, b), child)) ==
              PairedKids(keys, children)[b := child]
  {
    hide InsertAt, Paired;
    InsertedPaired(keys, children, b, child);
    PairedLength(keys, children);
    var pos := PlaceOf(keys, b);
    var ks, cs := InsertAt<byte>(keys, pos, b), InsertAt<Node?>(children, pos, child);
    var m := PairedKids(keys, children)[b := child];
    InsertedAt(keys, children, pos, b, child, ks, cs);
    forall x: byte ensures (x in m <==> x in ks) && (x in m ==> m[x] == cs[IndexOf(ks, x)]) {
      InsertedFirst(keys, children, pos, b, child, ks, cs, x);
    }
  }

  lemma InsertedFirst(keys: seq<byte>, children: seq<Node?>, pos: nat, b: byte, child: Node, ks: seq<byte>,
                      cs: seq<Node?>, x: byte)
    requires |keys| == |children| && pos == PlaceOf(keys, b)
    requires ks == InsertAt<byte>(keys, pos, b) && cs == InsertAt<Node?>(children, pos, child)
    ensures |ks| == |cs| && (x in ks <==> x == b || x in keys)
    ensures x in ks ==> cs[IndexOf(ks, x)] == if x == b then child else children[IndexOf(keys, x)]
  {
    hide InsertAt;
    InsertedAt(keys, children, pos, b, child, ks, cs);
    if x == b {
      assert ks[pos] == b;
      IndexIs(ks, b, pos);
    } else if x in keys {
      var i := IndexOf(keys, x);
      var j := if i < pos then i else i + 1;
      assert ks[j] == x;
      forall l | 0 <= l < j ensures ks[l] != x {
        assert l != pos ==> keys[if l < pos then l else l - 1] in keys[..i];
      }
      IndexIs(ks, x, j);
    }
  }

  /** The same, but the last of each byte counts: a byte that was there keeps its child. */
  lemma InsertedLast(keys: seq<byte>, children: seq<Node?>, b: byte, child: Node)
    requires Paired(keys, children) && Distinct(keys)
    ensures Paired(InsertAt<byte>(keys, PlaceOf(keys, b), b), InsertAt<Node?>(children, PlaceOf(keys, b), child))
    ensures LastKids(InsertAt<byte>(keys, PlaceOf(keys, b), b), InsertAt<Node?>(children, PlaceOf(keys, b), child)) ==
              if b in keys then PairedKids(keys, children) else PairedKids(keys, children)[b := child]
  {
    hide InsertAt, Paired, Distinct, LastOf, IndexOf;
    InsertedPaired(keys, children, b, child);
    PairedLength(keys, children);
    var pos := PlaceOf(keys, b);
    var ks, cs := InsertAt<byte>(keys, pos, b), InsertAt<Node?>(children, pos, child);
    var m := if b in keys then PairedKids(keys, children) else PairedKids(keys, children)[b := child];
    forall x: byte ensures |ks| == |cs| && (x in m <==> x in ks) && (x in m ==> m[x] == cs[LastOf(ks, x)]) {
      InsertedFirst(keys, children, pos, b, child, ks, cs, x);
      if x in ks {
        LastInserted(keys, children, pos, b, child, ks, cs, x);
      }
    }
    assert LastKids(ks, cs) == m;
  }

  lemma LastInserted(keys: seq<byte>, children: seq<Node?>, pos: nat, b: byte, child: Node, ks: seq<byte>,
                     cs: seq<Node?>, x: byte)
    requires |keys| == |children| && Distinct(keys) && pos == PlaceOf(keys, b)
    requires ks == InsertAt<byte>(keys, pos, b) && cs == InsertAt<Node?>(children, pos, child) && x in ks
    ensures |ks| == |cs| && (x == b || x in keys)
    ensures cs[LastOf(ks, x)] == if x in keys then children[IndexOf(keys, x)] else child
  {
    hide InsertAt, LastOf;
    InsertedAt(keys, children, pos, b, child, ks, cs);
    if x in keys {
      var i := IndexOf(keys, x);
      LastIs(ks, x, if i < pos then i else i + 1);
    } else {
      LastIs(ks, x, pos);
    }
  }

  lemma RemovedPaired(keys: seq<byte>, children: seq<Node?>, pos: nat)
    requires Paired(keys, children) && Distinct(keys) && pos < |keys|
    ensures Paired(RemoveAt<byte>(keys, pos), RemoveAt<Node?>(children, pos)) && Distinct(RemoveAt<byte>(keys, pos))
  {
    hide RemoveAt;
    var ks, cs := RemoveAt<byte>(keys, pos), RemoveAt<Node?>(children, pos);
    RemovedAt(keys, children, pos, ks, cs);
  }

  lemma Removed(keys: seq<byte>, children: seq<Node?>, pos: nat)
    requires Paired(keys, children) && Distinct(keys) && pos < |keys|
    ensures Paired(RemoveAt<byte>(keys, pos), RemoveAt<Node?>(children, pos)) && Distinct(RemoveAt<byte>(keys, pos))
    ensures PairedKids(RemoveAt<byte>(keys, pos), RemoveAt<Node?>(children, pos)) ==
              PairedKids(keys, children) - {keys[pos]}
  {
    hide RemoveAt, PairedKids, Matches;
    RemovedPaired(keys, children, pos);
    PairedMatches(keys, children);
    RemovedMatches(keys, children, pos, PairedKids(keys, children));
    MatchesPaired(RemoveAt<byte>(keys, pos), RemoveAt<Node?>(children, pos), PairedKids(keys, children) - {keys[pos]});
  }

  lemma RemovedMatches(keys: seq<byte>, children: seq<Node?>, pos: nat, m: map<byte, Node>)
    requires |keys| == |children| && Distinct(keys) && Matches(keys, children, m) && pos < |keys|
    ensures |RemoveAt<byte>(keys, pos)| == |RemoveAt<Node?>(children, pos)|
    ensures Matches(RemoveAt<byte>(keys, pos), RemoveAt<Node?>(children, pos), m - {keys[pos]})
  {
    hide RemoveAt;
    var ks, cs := RemoveAt<byte>(keys, pos), RemoveAt<Node?>(children, pos);
    RemovedAt(keys, children, pos, ks, cs);
    forall x | x in m - {keys[pos]} ensures x in ks {
      var i :| 0 <= i < |keys| && keys[i] == x;
      assert ks[if i < pos then i else i - 1] == x;
    }
  }

  lemma SlotAdded(index: seq<int>, children: seq<Node?>, b: byte, child: Node)
    requires Indexed(index, children)
    ensures |index| == 256 && Indexed(index[b := |children|], children + [child])
    ensures IndexedKids(index[b := |children|], children + [child]) == IndexedKids(index, children)[b := child]
  {
  }

  lemma SlotLeft(index: seq<int>, children: seq<Node?>, b: byte)
    requires Indexed(index, children)
    ensures |index| == 256 && Indexed(index[b := EMPTY_INDEX], children)
    ensures IndexedKids(index[b := EMPTY_INDEX], children) == IndexedKids(index, children) - {b}
  {
  }

  lemma DirectSet(children: seq<Node?>, b: byte, child: Node?)
    requires |children| == 256
    ensures DirectKids(children[b := child]) ==
            if child == null then DirectKids(children) - {b} else DirectKids(children)[b := child]
  {
  }

  lemma PairedLength(keys: seq<byte>, children: seq<Node?>)
    requires Paired(keys, children)
    ensures |keys| == |children|
  {
  }

  lemma KeysOfPaired(keys: seq<byte>, children: seq<Node?>)
    requires Paired(keys, children)
    ensures forall b: byte :: b in PairedKids(keys, children) <==> b in keys
  {
  }

  class Node {
    var prefix: seq<byte>
    var leaf: Leaf
    var kind: nat
    var keys: seq<byte>
    var children: seq<Node?>
    var index: seq<int>

    /** The stored form is a proper one of its kind. */
    ghost predicate Proper()
      reads this
    {
      if kind == NODE4 || kind == NODE16 then Paired(keys, children) && |keys| < kind
      else if kind == NODE48 then Indexed(index, children) && |children| < 48
      else if kind == NODE256 then |children| == 256
      else kind == 0 && leaf.Leaf?
    }

    ghost function Kids(): map<byte, Node>
      requires Proper()
      reads this
    {
      if kind == NODE4 || kind == NODE16 then PairedKids(keys, children)
      else if kind == NODE48 then IndexedKids(index, children)
      else if kind == NODE256 then DirectKids(children)
      else map[]
    }

    predicate Small()
      reads this
    {
      kind == NODE4 || kind == NODE16
    }

    /** No byte has two children. */
    ghost predicate Single()
      reads this
    {
      Small() ==> Distinct(keys)
    }

    /** A child that is not the first under its byte is `twin`. */
    ghost predicate Hides(twin: Node)
      reads this
    {
      Small() ==> |keys| == |children| && forall i :: 0 < i < |keys| && keys[i - 1] == keys[i] ==> children[i] == twin
    }

    /** One child stands right before another. */
    ghost predicate Twin(x: Node, y: Node)
      reads this
    {
      Small() && exists i :: 0 <= i < |children| - 1 && children[i] == x && children[i + 1] == y
    }

    /** The children once one more is added. */
    ghost function Joined(b: byte, child: Node): map<byte, Node>
      requires Proper()
      reads this
    {
      if kind == NODE16 && |keys| == 15 then
        InsertedPaired(keys, children, b, child);
        LastKids(InsertAt<byte>(keys, PlaceOf(keys, b), b), InsertAt<Node?>(children, PlaceOf(keys, b), child))
      else Kids()[b := child]
    }

    ghost function Look(): View
      requires Proper()
      reads this
    {
      View(prefix, leaf, Kids())
    }

    constructor MakeLeaf(key: Key, value: Value)
      ensures Proper() && Single() && Look() == View([], Leaf(key, value), map[])
    {
      prefix, leaf, kind, keys, children, index := [], Leaf(key, value), 0, [], [], [];
    }

    /** The lower half of a node whose prefix is split: everything but the prefix is the same. */
    constructor Lower(n: Node, rest: seq<byte>)
      requires n.Proper()
      ensures Proper() && Look() == n.Look().(prefix := rest) && Bare() == n.Bare() && Single() == n.Single()
    {
      prefix, leaf, kind, keys, children, index := rest, n.leaf, n.kind, n.keys, n.children, n.index;
    }

    /** Turns the node, in place, into an inner node without children. */
    method Clear(px: seq<byte>)
      modifies this
      ensures Proper() && Single() && Look() == View(px, NoLeaf, map[]) && kind == NODE4 && keys == [] && children == []
    {
      leaf, prefix, kind, keys, children := NoLeaf, px, NODE4, [], [];
    }

    /** The search of the two small kinds: the first child under a byte. */
    method FindPaired(b: byte) returns (c: Node?)
      requires |keys| == |children|
      ensures c == if b in keys then children[IndexOf(keys, b)] else null
    {
      for i := 0 to |keys|
        invariant b !in keys[..i]
      {
        if keys[i] == b {
          assert IndexOf(keys, b) == i;
          return children[i];
        }
      }
      return null;
    }

    /** The insertion of the two small kinds: before the first byte that is not below. */
    method InsertPaired(b: byte, child: Node)
      requires |keys| == |children|
      modifies this`keys, this`children
      ensures keys == InsertAt<byte>(old(keys), PlaceOf(old(keys), b), b)
      ensures children == InsertAt<Node?>(old(children), PlaceOf(old(keys), b), child)
    {
      var pos := 0;
      while pos < |keys| && keys[pos] < b
        invariant 0 <= pos <= |keys| && forall i :: 0 <= i < pos ==> keys[i] < b
      {
        pos := pos + 1;
      }
      assert pos == PlaceOf(keys, b);
      keys, children := InsertAt<byte>(keys, pos, b), InsertAt<Node?>(children, pos, child);
    }

    method FindChild(b: byte) returns (c: Node?)
      requires Proper()
      ensures c == if b in Kids() then Kids()[b] else null
    {
      if kind == NODE4 || kind == NODE16 {
        c := FindPaired(b);
        return;
      } else if kind == NODE48 {
        return if index[b] != EMPTY_INDEX then children[index[b]] else null;
      } else if kind == NODE256 {
        return children[b];
      }
      return null;
    }

    method RemoveChild(b: byte)
      requires Proper() && Single()
      modifies this
      ensures Proper() && Single() && Look() == old(Look()).(kids := old(Kids()) - {b})
    {
      hide Paired, PairedKids, Indexed, DirectKids;
      if kind == NODE4 || kind == NODE16 {
        PairedLength(keys, children);
        for i := 0 to |keys|
          invariant b !in keys[..i] && unchanged(this)
        {
          if keys[i] == b {
            Removed(keys, children, i);
            keys, children := RemoveAt<byte>(keys, i), RemoveAt<Node?>(children, i);
            return;
          }
        }
        KeysOfPaired(keys, children);
        assert Kids() - {b} == Kids();
      } else if kind == NODE48 {
        SlotLeft(index, children, b);
        if index[b] != EMPTY_INDEX {
          index := index[b := EMPTY_INDEX];
        } else {
          assert index[b := EMPTY_INDEX] == index;
        }
      } else if kind == NODE256 {
        DirectSet(children, b, null);
        children := children[b := null];
      } else {
        assert Kids() - {b} == Kids();
      }
    }

    /** Adds a child under any byte; a node that is full afterwards is stored as the next larger kind. */
    method AddChild(b: byte, child: Node)
      requires Proper() && leaf.NoLeaf?
      modifies this
      ensures Proper() && Look() == old(Look()).(kids := old(Joined(b, child)))
      ensures kind == GrownKind(old(kind), old(|children|) + 1) && !Bare()
      ensures old(Single()) ==> (Single() <==> b !in old(Kids()) || !Small())
      ensures old(Single()) && b in old(Kids()) && Small() ==> Twin(child, old(Kids()[b])) && Hides(old(Kids()[b]))
    {
      hide Paired, PairedKids, LastKids, Indexed, DirectKids, InsertAt, Distinct, Twin, Hides;
      ghost var ks, cs := keys, children;
      if kind == NODE4 || kind == NODE16 {
        KeysOfPaired(keys, children);
        PairedLength(keys, children);
        Inserted(keys, children, b, child);
        InsertedPaired(keys, children, b, child);
        InsertedAt(keys, children, PlaceOf(keys, b), b, child,
                   InsertAt<byte>(keys, PlaceOf(keys, b), b), InsertAt<Node?>(children, PlaceOf(keys, b), child));
        InsertPaired(b, child);
        if |keys| >= kind && kind == NODE4 {
          kind := NODE16;
        } else if |keys| >= kind && kind == NODE16 {
          Grow16To48();
        }
        if Small() && Distinct(ks) && b in ks {
          TwinHidden(this, ks, cs, b, child);
        }
      } else if kind == NODE48 {
        SlotAdded(index, children, b, child);
        var slot := |children|;
        index, children := index[b := slot], children + [child];
        if |children| == 48 {
          Grow48To256();
        }
      } else {
        DirectSet(children, b, child);
        children := children[b := child];
      }
    }

    /** Of two children under one byte, the index keeps the later. */
    method Grow16To48()
      requires kind == NODE16 && Paired(keys, children) && |keys| < 48
      modifies this`index, this`keys, this`kind
      ensures kind == NODE48 && Indexed(index, children)
      ensures IndexedKids(index, children) == LastKids(old(keys), children)
    {
      var idx := seq(256, i => EMPTY_INDEX);
      for i := 0 to |keys|
        invariant |idx| == 256
        invariant forall j :: 0 <= j < i ==> j <= idx[keys[j]] < i
        invariant forall b: byte :: idx[b] != EMPTY_INDEX ==> 0 <= idx[b] < i && keys[idx[b]] == b
      {
        idx := idx[keys[i] := i];
      }
      SlotsMatch(keys, children, idx);
      index, keys, kind := idx, [], NODE48;
    }

    /** For each slot in turn, the first byte that has it. */
    method Grow48To256()
      requires kind == NODE48 && Indexed(index, children)
      modifies this`index, this`children, this`kind
      ensures kind == NODE256 && |children| == 256
      ensures DirectKids(children) == IndexedKids(old(index), old(children))
    {
      var slots: seq<Node?> := seq(256, i => null);
      for i := 0 to |children|
        invariant |slots| == 256
        invariant forall b: byte :: slots[b] == if 0 <= index[b] < i then children[index[b]] else null
      {
        var k := 0;
        while k < 256 && index[k] != i
          invariant 0 <= k <= 256 && forall j :: 0 <= j < k ==> index[j] != i
        {
          k := k + 1;
        }
        if k < 256 {
          slots := slots[k := children[i]];
        }
      }
      children, index, kind := slots, seq(256, i => 0), NODE256;
      assert DirectKids(children) == IndexedKids(old(index), old(children));
    }

    /** `len(n.children) == 0`; such a node has no child. */
    predicate Bare()
      reads this
    {
      |children| == 0
    }
  }

  function GrownKind(kind: nat, slots: nat): nat {
    if kind == NODE4 && slots == 4 then NODE16
    else if kind == NODE16 && slots == 16 then NODE48
    else if kind == NODE48 && slots == 48 then NODE256
    else kind
  }

  lemma SlotsMatch(keys: seq<byte>, children: seq<Node?>, index: seq<int>)
    requires Paired(keys, children) && |index| == 256
    requires forall j :: 0 <= j < |keys| ==> j <= index[keys[j]] < |keys|
    requires forall b: byte :: index[b] != EMPTY_INDEX ==> 0 <= index[b] < |keys| && keys[index[b]] == b
    ensures Indexed(index, children) && IndexedKids(index, children) == LastKids(keys, children)
  {
    hide LastOf;
    forall b: byte ensures b in keys <==> index[b] != EMPTY_INDEX {
    }
    forall b: byte | b in keys ensures index[b] == LastOf(keys, b) {
      LastIs(keys, b, index[b]);
    }
  }

  /** Adding to a node without twins: a byte that has a child already gets the new one, except where the node
      grows from 16 to 48 slots and the old child stays. */
  lemma JoinedSingle(n: Node, b: byte, child: Node)
    requires n.Proper() && n.Single()
    ensures n.Joined(b, child) ==
            if b in n.Kids() && n.kind == NODE16 && |n.keys| == 15 then n.Kids() else n.Kids()[b := child]
  {
    if n.kind == NODE16 && |n.keys| == 15 {
      KeysOfPaired(n.keys, n.children);
      InsertedLast(n.keys, n.children, b, child);
    }
  }

  /** The child that was there is hidden behind the new one. */
  lemma TwinHidden(n: Node, keys: seq<byte>, children: seq<Node?>, b: byte, child: Node)
    requires Paired(keys, children) && Distinct(keys) && b in keys && n.Small()
    requires n.keys == InsertAt<byte>(keys, PlaceOf(keys, b), b)
    requires n.children == InsertAt<Node?>(children, PlaceOf(keys, b), child)
    ensures n.Hides(PairedKids(keys, children)[b]) && n.Twin(child, PairedKids(keys, children)[b])
  {
    hide InsertAt;
    var pos := PlaceOf(keys, b);
    InsertedAt(keys, children, pos, b, child, n.keys, n.children);
    PlaceIs(keys, b);
    IndexIs(keys, b, pos);
    assert n.children[pos] == child && n.children[pos + 1] == children[pos];
  }

  lemma PlaceIs(keys: seq<byte>, b: byte)
    requires Sorted(keys) && b in keys
    ensures PlaceOf(keys, b) < |keys| && keys[PlaceOf(keys, b)] == b && b !in keys[..PlaceOf(keys, b)]
  {
    var i := IndexOf(keys, b);
    assert PlaceOf(keys, b) <= i;
  }

  lemma BareHasNone(n: Node)
    requires n.Proper() && n.leaf.NoLeaf? && n.Bare()
    ensures n.Kids() == map[]
  {
    if n.kind == NODE48 {
      assert forall b: byte :: n.index[b] == EMPTY_INDEX;
    }
  }
}
