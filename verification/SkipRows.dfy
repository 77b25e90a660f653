/** A skip list as a value: its nodes in key order, each with its height. */
module SkipRows {
  import opened Bytes

  const MAX_LEVEL: nat := 32

  class SkipNode {
    const key: Key
    var value: Value
    var next: seq<SkipNode?>

    constructor (key: Key, value: Value, height: nat)
      ensures this.key == key && this.value == value && next == seq(height, _ => null)
    {
      this.key, this.value := key, value;
      next := seq(height, _ => null);
    }
  }

  /** Position 0 is the head, whose key is never looked at. */
  datatype Row = Row(node: SkipNode, height: nat, key: Key)

  datatype Cell = Cell(value: Value, next: seq<SkipNode?>)

  type Heap = map<SkipNode, Cell>

  /** The first position from `from` on that reaches level `i`, or the end. */
  ghost function First(rows: seq<Row>, from: nat, i: nat): (b: nat)
    requires from <= |rows|
    ensures from <= b <= |rows|
    ensures b < |rows| ==> rows[b].height > i
    decreases |rows| - from
  {
    if from == |rows| || rows[from].height > i then from else First(rows, from + 1, i)
  }

  lemma FirstSkips(rows: seq<Row>, from: nat, i: nat)
    requires from <= |rows|
    ensures forall a :: from <= a < First(rows, from, i) ==> rows[a].height <= i
    decreases |rows| - from
  {
  }

  lemma FirstIs(rows: seq<Row>, from: nat, i: nat, b: nat)
    requires from <= b <= |rows| && (forall a :: from <= a < b ==> rows[a].height <= i)
    requires b < |rows| ==> rows[b].height > i
    ensures First(rows, from, i) == b
  {
    FirstSkips(rows, from, i);
  }

  ghost function NodeAt(rows: seq<Row>, b: nat): SkipNode? {
    if b < |rows| then rows[b].node else null
  }

  /** Level by level, every node points to the next node that reaches that level. */
  ghost predicate Linked(rows: seq<Row>, h: Heap) {
    forall a :: 0 <= a < |rows| ==> LinkedAt(rows, a, h)
  }

  ghost predicate LinkedAt(rows: seq<Row>, a: nat, h: Heap)
    requires a < |rows|
  {
    && rows[a].node in h && |h[rows[a].node].next| == rows[a].height
    && forall i :: 0 <= i < rows[a].height ==> h[rows[a].node].next[i] == NodeAt(rows, First(rows, a + 1, i))
  }

  /** Distinct nodes below a head of full height, none taller than `level`, with ascending keys. */
  ghost predicate Shaped(rows: seq<Row>, level: nat) {
    && 1 <= level <= MAX_LEVEL
    && |rows| > 0 && rows[0].height == MAX_LEVEL
    && (forall a :: 1 <= a < |rows| ==> 1 <= rows[a].height <= level)
    && (forall a, b :: 0 <= a < b < |rows| ==> rows[a].node != rows[b].node)
    && (forall a, b :: 1 <= a < b < |rows| ==> Less(rows[a].key, rows[b].key))
  }

  ghost predicate Holds(rows: seq<Row>, h: Heap, m: map<Key, Value>) {
    && (forall a :: 1 <= a < |rows| ==>
          rows[a].node in h && rows[a].key in m && m[rows[a].key] == h[rows[a].node].value)
    && (forall k :: k in m ==> exists a :: 1 <= a < |rows| && rows[a].key == k)
  }

  ghost predicate Good(rows: seq<Row>, h: Heap, level: nat, m: map<Key, Value>) {
    Shaped(rows, level) && Linked(rows, h) && Holds(rows, h, m)
  }

  // ----- searching

  /** Position `a` is the last one below `key` that reaches level `i`. */
  ghost predicate IsPrev(rows: seq<Row>, key: Key, i: nat, a: nat) {
    && a < |rows| && rows[a].height > i && (a == 0 || Less(rows[a].key, key))
    && (First(rows, a + 1, i) < |rows| ==> AtMost(key, rows[First(rows, a + 1, i)].key))
  }

  /** Position `b` is where `key` is or would be. */
  ghost predicate IsPlace(rows: seq<Row>, key: Key, b: nat) {
    && 1 <= b <= |rows|
    && (forall a :: 1 <= a < b ==> Less(rows[a].key, key))
    && (forall a :: b <= a < |rows| ==> AtMost(key, rows[a].key))
  }

  /** On level 0 the predecessor is the row just before the key's place. */
  lemma PlaceAfterPrev(rows: seq<Row>, level: nat, key: Key, c: nat)
    requires Shaped(rows, level) && IsPrev(rows, key, 0, c)
    ensures First(rows, c + 1, 0) == c + 1 && IsPlace(rows, key, c + 1)
  {
    LessIsStrictTotalOrder();
    assert c + 1 < |rows| ==> rows[c + 1].height > 0;
    forall a | 1 <= a < c + 1 ensures Less(rows[a].key, key) {
      if a < c { assert Less(rows[a].key, rows[c].key); }
    }
    forall a | c + 1 <= a < |rows| ensures AtMost(key, rows[a].key) {
      if a > c + 1 { assert Less(rows[c + 1].key, rows[a].key); }
    }
  }

  /** On every level the predecessor is the last row before the key's place that reaches the level. */
  lemma PrevBeforePlace(rows: seq<Row>, level: nat, key: Key, i: nat, a: nat, b: nat)
    requires Shaped(rows, level) && IsPrev(rows, key, i, a) && IsPlace(rows, key, b)
    ensures a < b <= First(rows, a + 1, i) && First(rows, a + 1, i) == First(rows, b, i)
  {
    LessIrreflexive(key);
    var f := First(rows, a + 1, i);
    FirstSkips(rows, a + 1, i);
    FirstIs(rows, b, i, f);
  }

  /** Above the highest level in use, the head is the predecessor of everything. */
  lemma HeadIsPrev(rows: seq<Row>, level: nat, key: Key, i: nat)
    requires Shaped(rows, level) && level <= i < MAX_LEVEL
    ensures IsPrev(rows, key, i, 0)
  {
    FirstIs(rows, 1, i, |rows|);
  }

  lemma FoundOrAbsent(rows: seq<Row>, h: Heap, level: nat, m: map<Key, Value>, key: Key, b: nat)
    requires Good(rows, h, level, m) && IsPlace(rows, key, b)
    ensures if b < |rows| && rows[b].key == key then key in m && m[key] == h[rows[b].node].value else key !in m
  {
    LessIrreflexive(key);
    if b < |rows| && rows[b].key != key {
      LessTotal(key, rows[b].key);
      forall a | b < a < |rows| ensures rows[a].key != key {
        assert Less(rows[b].key, rows[a].key);
        LessTransitive(key, rows[b].key, rows[a].key);
      }
    }
  }

  // ----- linking a node in

  ghost function Inserted(rows: seq<Row>, b: nat, r: Row): seq<Row>
    requires b <= |rows|
  {
    rows[..b] + [r] + rows[b..]
  }

  lemma InsertedRows(rows: seq<Row>, b: nat, r: Row, rows': seq<Row>)
    requires b <= |rows| && rows' == Inserted(rows, b, r)
    ensures |rows'| == |rows| + 1
    ensures forall a {:trigger rows'[a]} :: 0 <= a < |rows'| ==>
              rows'[a] == if a < b then rows[a] else if a == b then r else rows[a - 1]
  {
  }

  lemma FirstInserted(rows: seq<Row>, b: nat, r: Row, from: nat, i: nat)
    requires from <= b <= |rows|
    ensures var f := First(rows, from, i);
            First(Inserted(rows, b, r), from, i) == if f < b then f else if i < r.height then b else f + 1
  {
    var rows' := Inserted(rows, b, r);
    var f := First(rows, from, i);
    var g := if f < b then f else if i < r.height then b else f + 1;
    FirstSkips(rows, from, i);
    forall a | from <= a < g ensures rows'[a].height <= i {
      assert a != b ==> rows'[a] == rows[if a < b then a else a - 1];
    }
    FirstIs(rows', from, i, g);
  }

  lemma FirstPastInserted(rows: seq<Row>, b: nat, r: Row, from: nat, i: nat)
    requires b <= from <= |rows|
    ensures First(Inserted(rows, b, r), from + 1, i) == First(rows, from, i) + 1
  {
    var rows' := Inserted(rows, b, r);
    forall a | from + 1 <= a < |rows'| ensures rows'[a] == rows[a - 1] { }
    FirstSkips(rows, from, i);
    FirstIs(rows', from + 1, i, First(rows, from, i) + 1);
  }

  ghost predicate ArePrevs(rows: seq<Row>, key: Key, ps: seq<nat>) {
    forall i :: 0 <= i < |ps| ==> IsPrev(rows, key, i, ps[i])
  }

  /** The predecessor on level `i` is the only row before the place that points past it on that level. */
  lemma PrevFacts(rows: seq<Row>, level: nat, key: Key, ps: seq<nat>, b: nat, i: nat)
    requires Shaped(rows, level) && ArePrevs(rows, key, ps) && IsPlace(rows, key, b) && i < |ps|
    ensures ps[i] < b <= |rows| && rows[ps[i]].height > i
    ensures b <= First(rows, ps[i] + 1, i) && First(rows, ps[i] + 1, i) == First(rows, b, i)
  {
    assert IsPrev(rows, key, i, ps[i]);
    PrevBeforePlace(rows, level, key, i, ps[i], b);
  }

  lemma PrevOnly(rows: seq<Row>, level: nat, key: Key, ps: seq<nat>, b: nat, i: nat, a: nat)
    requires Shaped(rows, level) && ArePrevs(rows, key, ps) && IsPlace(rows, key, b) && i < |ps|
    requires a < b && rows[a].height > i
    ensures ps[i] == a <==> First(rows, a + 1, i) >= b
  {
    hide Shaped, ArePrevs, IsPlace, First;
    PrevFacts(rows, level, key, ps, b, i);
    FirstSkips(rows, ps[i] + 1, i);
    FirstSkips(rows, a + 1, i);
  }

  lemma OtherNode(rows: seq<Row>, level: nat, a: nat, c: nat)
    requires Shaped(rows, level) && a < |rows| && c < |rows|
    ensures rows[a].node == rows[c].node <==> a == c
  {
  }

  /** The links of row `a` once the new node `n` is linked in on the levels below `i`. */
  ghost predicate LinkingAt(rows: seq<Row>, ps: seq<nat>, n: SkipNode, i: nat, a: nat, h: Heap)
    requires a < |rows| && i <= |ps|
  {
    && rows[a].node in h && |h[rows[a].node].next| == rows[a].height
    && forall j :: 0 <= j < rows[a].height ==>
         h[rows[a].node].next[j] == if j < i && ps[j] == a then n else NodeAt(rows, First(rows, a + 1, j))
  }

  ghost predicate Linking(rows: seq<Row>, ps: seq<nat>, n: SkipNode, height: nat, b: nat, i: nat, h: Heap)
    requires b <= |rows| && i <= height <= |ps|
  {
    && (forall a :: 0 <= a < |rows| ==> rows[a].node != n && LinkingAt(rows, ps, n, i, a, h))
    && n in h && |h[n].next| == height
    && forall j :: 0 <= j < i ==> h[n].next[j] == NodeAt(rows, First(rows, b, j))
  }

  /** `n` linked in after `p` on level `i`. */
  ghost function LinkedOn(h: Heap, n: SkipNode, p: SkipNode, i: nat): Heap
    requires n in h && p in h && i < |h[n].next| && i < |h[p].next|
  {
    h[n := h[n].(next := h[n].next[i := h[p].next[i]])][p := h[p].(next := h[p].next[i := n])]
  }

  /** `c`, the node after `p` on level `i`, unlinked there. */
  ghost function UnlinkedOn(h: Heap, c: SkipNode, p: SkipNode, i: nat): Heap
    requires c in h && p in h && i < |h[c].next| && i < |h[p].next|
  {
    h[p := h[p].(next := h[p].next[i := h[c].next[i]])]
  }

  /** Linking in on one more level. */
  lemma LinkLevel(rows: seq<Row>, level: nat, key: Key, ps: seq<nat>, n: SkipNode, height: nat, b: nat, i: nat, h: Heap)
    requires Shaped(rows, level) && ArePrevs(rows, key, ps) && IsPlace(rows, key, b) && i < height <= |ps|
    requires Linking(rows, ps, n, height, b, i, h)
    ensures ps[i] < |rows| && rows[ps[i]].node in h && i < |h[rows[ps[i]].node].next|
    ensures n in h && i < |h[n].next| && n != rows[ps[i]].node
    ensures Linking(rows, ps, n, height, b, i + 1, LinkedOn(h, n, rows[ps[i]].node, i))
  {
    hide Shaped, IsPlace, IsPrev, ArePrevs, First, NodeAt, Less;
    PrevFacts(rows, level, key, ps, b, i);
    var p := rows[ps[i]].node;
    assert LinkingAt(rows, ps, n, i, ps[i], h);
    var h' := LinkedOn(h, n, p, i);
    forall a | 0 <= a < |rows| ensures rows[a].node != n && LinkingAt(rows, ps, n, i + 1, a, h') {
      assert LinkingAt(rows, ps, n, i, a, h);
      OtherNode(rows, level, a, ps[i]);
    }
  }

  /** Linked in on all its levels, the node is in the list. */
  lemma LinkedIn(rows: seq<Row>, level: nat, key: Key, ps: seq<nat>, n: SkipNode, height: nat, b: nat, h: Heap)
    requires Shaped(rows, level) && ArePrevs(rows, key, ps) && IsPlace(rows, key, b) && height <= |ps|
    requires Linking(rows, ps, n, height, b, height, h)
    ensures Linked(Inserted(rows, b, Row(n, height, key)), h)
  {
    hide Shaped, IsPlace, IsPrev, ArePrevs, First, Less, Linking, LinkedAt;
    PlaceInRange(rows, key, b);
    forall a | 0 <= a < |Inserted(rows, b, Row(n, height, key))|
      ensures LinkedAt(Inserted(rows, b, Row(n, height, key)), a, h)
    {
      if a < b {
        LinkedBefore(rows, level, key, ps, n, height, b, h, a);
      } else {
        LinkedFrom(rows, level, key, ps, n, height, b, h, a);
      }
    }
  }

  lemma PlaceInRange(rows: seq<Row>, key: Key, b: nat)
    requires IsPlace(rows, key, b)
    ensures 1 <= b <= |rows|
  {
  }

  lemma LinkedFrom(rows: seq<Row>, level: nat, key: Key, ps: seq<nat>, n: SkipNode, height: nat, b: nat, h: Heap,
                   a: nat)
    requires Shaped(rows, level) && ArePrevs(rows, key, ps)
    requires IsPlace(rows, key, b) && height <= |ps| && b <= a <= |rows|
    requires Linking(rows, ps, n, height, b, height, h)
    ensures LinkedAt(Inserted(rows, b, Row(n, height, key)), a, h)
  {
    hide Shaped, IsPlace, IsPrev, ArePrevs, First, Less;
    var r := Row(n, height, key);
    var rows' := Inserted(rows, b, r);
    InsertedRows(rows, b, r, rows');
    hide Inserted;
    assert a > b ==> rows'[a] == rows[a - 1] && LinkingAt(rows, ps, n, height, a - 1, h);
    forall i | 0 <= i < rows'[a].height ensures h[rows'[a].node].next[i] == NodeAt(rows', First(rows', a + 1, i)) {
      FirstPastInserted(rows, b, r, a, i);
      if i < height {
        PrevFacts(rows, level, key, ps, b, i);
      }
    }
  }

  lemma LinkedBefore(rows: seq<Row>, level: nat, key: Key, ps: seq<nat>, n: SkipNode, height: nat, b: nat, h: Heap,
                     a: nat)
    requires Shaped(rows, level) && ArePrevs(rows, key, ps) && IsPlace(rows, key, b) && height <= |ps| && a < b
    requires Linking(rows, ps, n, height, b, height, h)
    ensures LinkedAt(Inserted(rows, b, Row(n, height, key)), a, h)
  {
    hide Shaped, IsPlace, IsPrev, ArePrevs, First, Less;
    PlaceInRange(rows, key, b);
    var r := Row(n, height, key);
    var rows' := Inserted(rows, b, r);
    assert rows'[a] == rows[a] && LinkingAt(rows, ps, n, height, a, h);
    forall i | 0 <= i < rows[a].height ensures h[rows[a].node].next[i] == NodeAt(rows', First(rows', a + 1, i)) {
      FirstInserted(rows, b, r, a + 1, i);
      if i < height {
        PrevOnly(rows, level, key, ps, b, i, a);
      }
    }
  }

  // ----- unlinking a node

  ghost function Removed(rows: seq<Row>, b: nat): seq<Row>
    requires b < |rows|
  {
    rows[..b] + rows[b + 1..]
  }

  /** The links of row `a` once row `b` is unlinked on the levels below `i`. */
  ghost predicate UnlinkingAt(rows: seq<Row>, ps: seq<nat>, b: nat, i: nat, a: nat, h: Heap)
    requires a < |rows| && b < |rows| && i <= |ps|
  {
    && rows[a].node in h && |h[rows[a].node].next| == rows[a].height
    && forall j :: 0 <= j < rows[a].height ==>
         h[rows[a].node].next[j] == NodeAt(rows, First(rows, if j < i && ps[j] == a then b + 1 else a + 1, j))
  }

  ghost predicate Unlinking(rows: seq<Row>, ps: seq<nat>, b: nat, i: nat, h: Heap)
    requires b < |rows| && i <= |ps|
  {
    forall a :: 0 <= a < |rows| ==> UnlinkingAt(rows, ps, b, i, a, h)
  }

  lemma UnlinkLevel(rows: seq<Row>, level: nat, key: Key, ps: seq<nat>, b: nat, i: nat, h: Heap)
    requires Shaped(rows, level) && ArePrevs(rows, key, ps)
    requires IsPlace(rows, key, b) && b < |rows| && i < rows[b].height <= |ps|
    requires Unlinking(rows, ps, b, i, h)
    ensures ps[i] < |rows| && rows[ps[i]].node in h && i < |h[rows[ps[i]].node].next|
    ensures rows[b].node in h && |h[rows[b].node].next| == rows[b].height
    ensures rows[b].node != rows[ps[i]].node
    ensures Unlinking(rows, ps, b, i + 1, UnlinkedOn(h, rows[b].node, rows[ps[i]].node, i))
  {
    hide Shaped, IsPlace, IsPrev, ArePrevs, First, NodeAt, Less;
    PrevFacts(rows, level, key, ps, b, i);
    var p, c := rows[ps[i]].node, rows[b].node;
    assert UnlinkingAt(rows, ps, b, i, ps[i], h) && UnlinkingAt(rows, ps, b, i, b, h);
    var h' := UnlinkedOn(h, c, p, i);
    OtherNode(rows, level, b, ps[i]);
    var i' := i + 1;
    forall a | 0 <= a < |rows| ensures UnlinkingAt(rows, ps, b, i', a, h') {
      assert UnlinkingAt(rows, ps, b, i, a, h);
      OtherNode(rows, level, a, ps[i]);
    }
  }

  lemma FirstRemoved(rows: seq<Row>, b: nat, from: nat, i: nat)
    requires b < |rows| && from <= b
    ensures var f := First(rows, from, i);
            First(Removed(rows, b), from, i) == if f < b then f else First(rows, b + 1, i) - 1
  {
    var rows' := Removed(rows, b);
    var f := First(rows, from, i);
    var g := if f < b then f else First(rows, b + 1, i) - 1;
    assert forall a :: 0 <= a < b ==> rows'[a] == rows[a];
    assert forall a :: b <= a < |rows'| ==> rows'[a] == rows[a + 1];
    FirstSkips(rows, from, i);
    FirstSkips(rows, b + 1, i);
    FirstIs(rows', from, i, g);
  }

  lemma NodeAtRemoved(rows: seq<Row>, b: nat, f: nat)
    requires b < |rows| && f != b
    ensures NodeAt(Removed(rows, b), if f < b then f else f - 1) == NodeAt(rows, f)
  {
  }

  lemma FirstPastRemoved(rows: seq<Row>, b: nat, from: nat, i: nat)
    requires b < from <= |rows|
    ensures First(Removed(rows, b), from - 1, i) == First(rows, from, i) - 1
  {
    var rows' := Removed(rows, b);
    forall a | b <= a < |rows'| ensures rows'[a] == rows[a + 1] { }
    FirstSkips(rows, from, i);
    FirstIs(rows', from - 1, i, First(rows, from, i) - 1);
  }

  /** Unlinked on all its levels, the node is out of the list. */
  lemma UnlinkedOut(rows: seq<Row>, level: nat, key: Key, ps: seq<nat>, b: nat, h: Heap)
    requires Shaped(rows, level) && ArePrevs(rows, key, ps)
    requires IsPlace(rows, key, b) && b < |rows| && rows[b].height <= |ps|
    requires Unlinking(rows, ps, b, rows[b].height, h)
    ensures Linked(Removed(rows, b), h)
  {
    hide Shaped, IsPlace, IsPrev, ArePrevs, First, Less, Unlinking, LinkedAt;
    forall a | 0 <= a < |Removed(rows, b)| ensures LinkedAt(Removed(rows, b), a, h) {
      if a < b {
        UnlinkedBefore(rows, level, key, ps, b, h, a);
      } else {
        UnlinkedFrom(rows, level, key, ps, b, h, a);
      }
    }
  }

  lemma UnlinkedFrom(rows: seq<Row>, level: nat, key: Key, ps: seq<nat>, b: nat, h: Heap, a: nat)
    requires Shaped(rows, level) && ArePrevs(rows, key, ps)
    requires IsPlace(rows, key, b) && b < |rows| && rows[b].height <= |ps|
    requires Unlinking(rows, ps, b, rows[b].height, h) && b <= a < |rows| - 1
    ensures LinkedAt(Removed(rows, b), a, h)
  {
    hide Shaped, IsPlace, IsPrev, ArePrevs, First, Less;
    var rows' := Removed(rows, b);
    assert rows'[a] == rows[a + 1] && UnlinkingAt(rows, ps, b, rows[b].height, a + 1, h);
    forall i | 0 <= i < rows'[a].height ensures h[rows'[a].node].next[i] == NodeAt(rows', First(rows', a + 1, i)) {
      FirstPastRemoved(rows, b, a + 2, i);
      if i < rows[b].height {
        PrevFacts(rows, level, key, ps, b, i);
      }
    }
  }

  lemma UnlinkedBefore(rows: seq<Row>, level: nat, key: Key, ps: seq<nat>, b: nat, h: Heap, a: nat)
    requires Shaped(rows, level) && ArePrevs(rows, key, ps)
    requires IsPlace(rows, key, b) && b < |rows| && rows[b].height <= |ps|
    requires Unlinking(rows, ps, b, rows[b].height, h) && a < b
    ensures LinkedAt(Removed(rows, b), a, h)
  {
    hide Shaped, IsPlace, IsPrev, ArePrevs, First, Less, NodeAt;
    assert Removed(rows, b)[a] == rows[a] && UnlinkingAt(rows, ps, b, rows[b].height, a, h);
    forall i | 0 <= i < rows[a].height
      ensures h[rows[a].node].next[i] == NodeAt(Removed(rows, b), First(Removed(rows, b), a + 1, i))
    {
      NextUnlinked(rows, level, key, ps, b, a, i);
    }
  }

  lemma NextUnlinked(rows: seq<Row>, level: nat, key: Key, ps: seq<nat>, b: nat, a: nat, i: nat)
    requires Shaped(rows, level) && ArePrevs(rows, key, ps)
    requires IsPlace(rows, key, b) && b < |rows| && rows[b].height <= |ps|
    requires a < b && i < rows[a].height
    ensures NodeAt(Removed(rows, b), First(Removed(rows, b), a + 1, i)) ==
            NodeAt(rows, First(rows, if i < rows[b].height && ps[i] == a then b + 1 else a + 1, i))
  {
    hide Shaped, IsPlace, IsPrev, ArePrevs, First, Less, NodeAt;
    var f, g := First(rows, a + 1, i), First(rows, b + 1, i);
    FirstRemoved(rows, b, a + 1, i);
    NodeAtRemoved(rows, b, if f < b then f else g);
    if i < rows[b].height {
      PrevOnly(rows, level, key, ps, b, i, a);
    } else if f >= b {
      FirstSkips(rows, a + 1, i);
      FirstIs(rows, b + 1, i, f);
    }
  }

  // ----- the whole invariant across the edits

  /** The values of all rows but `x` are as before. */
  ghost predicate SameValues(rows: seq<Row>, h: Heap, h': Heap) {
    forall a :: 0 <= a < |rows| && rows[a].node in h ==>
      rows[a].node in h' && h'[rows[a].node].value == h[rows[a].node].value
  }

  lemma ShapedInserted(rows: seq<Row>, level: nat, level': nat, key: Key, b: nat, n: SkipNode, height: nat)
    requires Shaped(rows, level) && IsPlace(rows, key, b) && (b < |rows| ==> rows[b].key != key)
    requires level <= level' <= MAX_LEVEL && 1 <= height <= level' && forall a :: 0 <= a < |rows| ==> rows[a].node != n
    ensures Shaped(Inserted(rows, b, Row(n, height, key)), level')
  {
    var rows' := Inserted(rows, b, Row(n, height, key));
    InsertedRows(rows, b, Row(n, height, key), rows');
    hide Inserted;
    forall a | b < a < |rows'| ensures Less(key, rows'[a].key) {
      assert rows'[a] == rows[a - 1];
      LessTotal(key, rows[b].key);
      if a - 1 > b { LessTransitive(key, rows[b].key, rows[a - 1].key); }
    }
  }

  lemma HoldsInserted(rows: seq<Row>, h: Heap, h': Heap, m: map<Key, Value>, b: nat, r: Row)
    requires Holds(rows, h, m) && SameValues(rows, h, h') && 1 <= b <= |rows|
    requires r.node in h' && r.key !in m
    ensures Holds(Inserted(rows, b, r), h', m[r.key := h'[r.node].value])
  {
    var rows', m' := Inserted(rows, b, r), m[r.key := h'[r.node].value];
    InsertedRows(rows, b, r, rows');
    hide Inserted;
    forall k | k in m' ensures exists a :: 1 <= a < |rows'| && rows'[a].key == k {
      if k == r.key {
        assert rows'[b].key == k;
      } else {
        var a :| 1 <= a < |rows| && rows[a].key == k;
        assert rows'[if a < b then a else a + 1].key == k;
      }
    }
  }

  lemma ShapedRemoved(rows: seq<Row>, level: nat, b: nat)
    requires Shaped(rows, level) && 1 <= b < |rows|
    ensures Shaped(Removed(rows, b), level)
  {
    var rows' := Removed(rows, b);
    assert forall a :: 0 <= a < b ==> rows'[a] == rows[a];
    assert forall a :: b <= a < |rows'| ==> rows'[a] == rows[a + 1];
  }

  lemma HoldsRemoved(rows: seq<Row>, level: nat, h: Heap, h': Heap, m: map<Key, Value>, b: nat)
    requires Shaped(rows, level) && Holds(rows, h, m) && SameValues(rows, h, h') && 1 <= b < |rows|
    ensures Holds(Removed(rows, b), h', m - {rows[b].key})
  {
    hide Shaped, Less;
    var rows', m' := Removed(rows, b), m - {rows[b].key};
    OtherKeys(rows, level, b);
    forall a | 1 <= a < |rows'|
      ensures rows'[a].node in h' && rows'[a].key in m' && m'[rows'[a].key] == h'[rows'[a].node].value
    {
      assert rows'[a] == rows[if a < b then a else a + 1];
    }
    forall k | k in m' ensures exists a :: 1 <= a < |rows'| && rows'[a].key == k {
      var a :| 1 <= a < |rows| && rows[a].key == k;
      assert rows'[if a < b then a else a - 1] == rows[a];
    }
  }

  lemma OtherKeys(rows: seq<Row>, level: nat, b: nat)
    requires Shaped(rows, level) && 1 <= b < |rows|
    ensures forall a :: 1 <= a < |rows| && a != b ==> rows[a].key != rows[b].key
  {
    LessIrreflexive(rows[b].key);
    forall a | 1 <= a < |rows| && a != b ensures rows[a].key != rows[b].key {
      assert a < b ==> Less(rows[a].key, rows[b].key);
      assert b < a ==> Less(rows[b].key, rows[a].key);
    }
  }

  /** Overwriting the value of a stored key. */
  lemma UpdateStep(rows: seq<Row>, h: Heap, level: nat, m: map<Key, Value>, b: nat, v: Value)
    requires Good(rows, h, level, m) && 1 <= b < |rows| && rows[b].node in h
    ensures Good(rows, h[rows[b].node := h[rows[b].node].(value := v)], level, m[rows[b].key := v])
  {
    var n := rows[b].node;
    var h', m' := h[n := h[n].(value := v)], m[rows[b].key := v];
    LessIrreflexive(rows[b].key);
    forall a | 0 <= a < |rows|
      ensures LinkedAt(rows, a, h') && (a != b ==> rows[a].node != n)
      ensures 1 <= a && a != b ==> rows[a].key != rows[b].key
    {
      assert LinkedAt(rows, a, h);
      if a < b { assert rows[a].node != rows[b].node && (1 <= a ==> Less(rows[a].key, rows[b].key)); }
      if b < a { assert rows[b].node != rows[a].node && Less(rows[b].key, rows[a].key); }
    }
  }

  /** Before any level is linked, and after all of them are. */
  lemma LinkingStart(rows: seq<Row>, ps: seq<nat>, n: SkipNode, height: nat, b: nat, h: Heap, c: Cell)
    requires Linked(rows, h) && b <= |rows| && height <= |ps| && |c.next| == height
    requires forall a :: 0 <= a < |rows| ==> rows[a].node != n
    ensures Linking(rows, ps, n, height, b, 0, h[n := c])
  {
    var h' := h[n := c];
    forall a | 0 <= a < |rows| ensures LinkingAt(rows, ps, n, 0, a, h') {
      assert LinkedAt(rows, a, h);
    }
  }

  lemma UnlinkingStart(rows: seq<Row>, ps: seq<nat>, b: nat, h: Heap)
    requires Linked(rows, h) && b < |rows|
    ensures Unlinking(rows, ps, b, 0, h)
  {
    forall a | 0 <= a < |rows| ensures UnlinkingAt(rows, ps, b, 0, a, h) {
      assert LinkedAt(rows, a, h);
    }
  }

  /** Only the cells of the rows matter. */
  lemma GoodFrame(rows: seq<Row>, h: Heap, h': Heap, level: nat, m: map<Key, Value>)
    requires Good(rows, h, level, m)
    requires forall a :: 0 <= a < |rows| && rows[a].node in h ==>
               rows[a].node in h' && h'[rows[a].node] == h[rows[a].node]
    ensures Good(rows, h', level, m)
  {
    forall a | 0 <= a < |rows| ensures LinkedAt(rows, a, h') {
      assert LinkedAt(rows, a, h);
    }
  }

  lemma GoodRaise(rows: seq<Row>, h: Heap, level: nat, level': nat, m: map<Key, Value>)
    requires Good(rows, h, level, m) && level <= level' <= MAX_LEVEL
    ensures Good(rows, h, level', m)
  {
  }

  /** A new node with an absent key, linked in on all its levels. */
  lemma InsertStep(rows: seq<Row>, h0: Heap, h: Heap, level: nat, m: map<Key, Value>, key: Key, ps: seq<nat>,
                   n: SkipNode, height: nat, b: nat)
    requires Good(rows, h0, level, m) && key !in m && ArePrevs(rows, key, ps) && IsPlace(rows, key, b)
    requires 1 <= height <= level <= MAX_LEVEL && height <= |ps| && Linking(rows, ps, n, height, b, height, h)
    requires SameValues(rows, h0, h) && n in h
    ensures Good(Inserted(rows, b, Row(n, height, key)), h, level, m[key := h[n].value])
  {
    hide Shaped, Linking, First, Less, ArePrevs;
    var r := Row(n, height, key);
    PlaceInRange(rows, key, b);
    NotLinkedYet(rows, ps, n, height, b, h);
    LinkedIn(rows, level, key, ps, n, height, b, h);
    ShapedInserted(rows, level, level, key, b, n, height);
    HoldsInserted(rows, h0, h, m, b, r);
  }

  lemma NotLinkedYet(rows: seq<Row>, ps: seq<nat>, n: SkipNode, height: nat, b: nat, h: Heap)
    requires b <= |rows| && height <= |ps| && Linking(rows, ps, n, height, b, height, h)
    ensures forall a :: 0 <= a < |rows| ==> rows[a].node != n
  {
  }

  /** A node unlinked on all its levels. */
  lemma RemoveStep(rows: seq<Row>, h0: Heap, h: Heap, level: nat, m: map<Key, Value>, key: Key, ps: seq<nat>, b: nat)
    requires Good(rows, h0, level, m) && ArePrevs(rows, key, ps)
    requires IsPlace(rows, key, b) && b < |rows| && rows[b].key == key
    requires rows[b].height <= |ps| && Unlinking(rows, ps, b, rows[b].height, h) && SameValues(rows, h0, h)
    ensures Good(Removed(rows, b), h, level, m - {key})
  {
    hide Shaped, Unlinking, First, Less, ArePrevs;
    PlaceInRange(rows, key, b);
    UnlinkedOut(rows, level, key, ps, b, h);
    ShapedRemoved(rows, level, b);
    HoldsRemoved(rows, level, h0, h, m, b);
  }

  // ----- scanning level 0

  ghost function KeysOf(rows: seq<Row>): (ks: seq<Key>)
    requires |rows| > 0
    ensures |ks| == |rows| - 1 && forall a :: 1 <= a < |rows| ==> ks[a - 1] == rows[a].key
  {
    seq(|rows| - 1, a requires 0 <= a < |rows| - 1 => rows[a + 1].key)
  }

  /** Level 0 lists the stored keys in ascending order. */
  lemma BottomLists(rows: seq<Row>, h: Heap, level: nat, m: map<Key, Value>)
    requires Good(rows, h, level, m)
    ensures Ascending(KeysOf(rows)) && forall k :: k in KeysOf(rows) <==> k in m
  {
    var ks := KeysOf(rows);
    forall i, j | 0 <= i < j < |ks| ensures Less(ks[i], ks[j]) {
      assert ks[i] == rows[i + 1].key && ks[j] == rows[j + 1].key;
    }
    forall k ensures k in ks <==> k in m {
      if k in m {
        var a :| 1 <= a < |rows| && rows[a].key == k;
        assert ks[a - 1] == k;
      }
      if k in ks {
        var i :| 0 <= i < |ks| && ks[i] == k;
        assert ks[i] == rows[i + 1].key;
      }
    }
  }

  /** On level 0 the next node is the next row. */
  lemma BottomNext(rows: seq<Row>, level: nat, c: nat)
    requires Shaped(rows, level) && c < |rows|
    ensures First(rows, c + 1, 0) == c + 1
  {
    assert c + 1 < |rows| ==> rows[c + 1].height > 0;
  }

  /** Nothing below the key searched for is wanted. */
  lemma ScanStart(rows: seq<Row>, key: Key, b: nat, keep: Key -> bool)
    requires |rows| > 0 && IsPlace(rows, key, b) && forall k :: keep(k) ==> AtMost(key, k)
    ensures b - 1 <= |KeysOf(rows)| && Select(KeysOf(rows)[..b - 1], keep) == []
  {
    var ks := KeysOf(rows);
    forall k | k in ks[..b - 1] ensures !keep(k) {
      var i :| 0 <= i < b - 1 && ks[i] == k;
      assert k == rows[i + 1].key;
    }
    SelectNone(ks[..b - 1], keep);
  }
}
