/** The skip list store: searched from the top level down, edited by splicing links level by level. */
module SkipList {
  import opened Bytes
  import opened Lookups
  import opened SkipRows

  ghost function NodeSet(rows: seq<Row>): set<SkipNode> {
    set a | 0 <= a < |rows| :: rows[a].node
  }

  ghost function Snap(ns: set<SkipNode>): (h: Heap)
    reads ns
    ensures h.Keys == ns
  {
    map n | n in ns :: Cell(n.value, n.next)
  }

  ghost predicate Keyed(rows: seq<Row>) {
    forall a :: 1 <= a < |rows| ==> rows[a].node.key == rows[a].key
  }

  lemma SnapAt(ns: set<SkipNode>, n: SkipNode)
    requires n in ns
    ensures Snap(ns)[n] == Cell(n.value, n.next)
  {
  }

  lemma RowIn(rows: seq<Row>, a: nat)
    requires a < |rows|
    ensures rows[a].node in NodeSet(rows)
  {
  }

  lemma NotInRows(rows: seq<Row>, n: SkipNode)
    requires n !in NodeSet(rows)
    ensures forall a :: 0 <= a < |rows| ==> rows[a].node != n
  {
    forall a | 0 <= a < |rows| ensures rows[a].node != n { RowIn(rows, a); }
  }

  /** The link of row `a` on level `i`, as found in the heap. */
  lemma LinkAt(rows: seq<Row>, h: Heap, level: nat, m: map<Key, Value>, a: nat, i: nat)
    requires Good(rows, h, level, m) && a < |rows| && i < rows[a].height
    ensures rows[a].node in h && |h[rows[a].node].next| == rows[a].height
    ensures h[rows[a].node].next[i] == NodeAt(rows, First(rows, a + 1, i))
  {
    assert LinkedAt(rows, a, h);
  }

  lemma GoodFacts(rows: seq<Row>, h: Heap, level: nat, m: map<Key, Value>)
    requires Good(rows, h, level, m)
    ensures Shaped(rows, level) && |rows| > 0 && 1 <= level <= MAX_LEVEL && rows[0].height == MAX_LEVEL
  {
  }

  lemma InsertedNodes(rows: seq<Row>, b: nat, r: Row)
    requires b <= |rows|
    ensures NodeSet(Inserted(rows, b, r)) == NodeSet(rows) + {r.node}
  {
    var rows' := Inserted(rows, b, r);
    assert rows'[b] == r;
    forall n | n in NodeSet(rows) ensures n in NodeSet(rows') {
      var a :| 0 <= a < |rows| && rows[a].node == n;
      assert rows'[if a < b then a else a + 1] == rows[a];
    }
  }

  lemma RemovedNodes(rows: seq<Row>, b: nat)
    requires b < |rows|
    ensures NodeSet(Removed(rows, b)) <= NodeSet(rows)
  {
  }

  lemma SnapNew(ns: set<SkipNode>, n: SkipNode)
    requires n !in ns
    ensures Snap(ns + {n}) == Snap(ns)[n := Cell(n.value, n.next)]
  {
  }

  lemma LinkingBegins(rows: seq<Row>, h: Heap, level: nat, m: map<Key, Value>, ps: seq<nat>, n: SkipNode, height: nat,
                      b: nat, c: Cell)
    requires Good(rows, h, level, m) && b <= |rows| && height <= |ps| && |c.next| == height
    requires forall a :: 0 <= a < |rows| ==> rows[a].node != n
    ensures Linking(rows, ps, n, height, b, 0, h[n := c]) && SameValues(rows, h, h[n := c])
  {
    LinkingStart(rows, ps, n, height, b, h, c);
  }

  lemma UnlinkingBegins(rows: seq<Row>, h: Heap, level: nat, m: map<Key, Value>, ps: seq<nat>, b: nat)
    requires Good(rows, h, level, m) && 1 <= b < |rows| && |ps| == level
    ensures Unlinking(rows, ps, b, 0, h) && SameValues(rows, h, h) && rows[b].height <= level
    ensures rows[b].node in h && |h[rows[b].node].next| == rows[b].height
    ensures Shaped(rows, level)
  {
    UnlinkingStart(rows, ps, b, h);
    assert LinkedAt(rows, b, h);
  }

  lemma SnapFrame(rows: seq<Row>, level: nat, m: map<Key, Value>, ns: set<SkipNode>)
    requires NodeSet(rows) <= ns && Good(rows, Snap(ns), level, m)
    ensures Good(rows, Snap(NodeSet(rows)), level, m)
  {
    forall a | 0 <= a < |rows| ensures rows[a].node in NodeSet(rows) { RowIn(rows, a); }
    GoodFrame(rows, Snap(ns), Snap(NodeSet(rows)), level, m);
  }

  lemma BottomLink(rows: seq<Row>, h: Heap, level: nat, m: map<Key, Value>, c: nat)
    requires Good(rows, h, level, m) && 1 <= c < |rows|
    ensures rows[c].node in h && |h[rows[c].node].next| > 0 && h[rows[c].node].next[0] == NodeAt(rows, c + 1)
  {
    assert LinkedAt(rows, c, h);
    BottomNext(rows, level, c);
  }

  lemma PlaceOnward(rows: seq<Row>, key: Key, b: nat, c: nat)
    requires IsPlace(rows, key, b) && b <= c
    ensures c < |rows| ==> AtMost(key, rows[c].key)
  {
  }

  /** At the first key at or above the prefix that does not carry it, a prefix scan is over. */
  lemma PrefixLost(prefix: Key, k: Key)
    requires AtMost(prefix, k) && !(prefix <= k)
    ensures forall m: Key :: AtMost(k, m) ==> !WithPrefix(prefix)(m)
  {
    LessTotal(prefix, k);
    PrefixPassed(prefix, k);
  }

  lemma RangeStart(rows: seq<Row>, start: Key, end: Key, b: nat)
    requires |rows| > 0 && IsPlace(rows, start, b)
    ensures b - 1 <= |KeysOf(rows)| && Select(KeysOf(rows)[..b - 1], InRange(start, end)) == []
  {
    ScanStart(rows, start, b, InRange(start, end));
  }

  /** A range scan that stopped at the end of the list or past the end of the range has listed the range. */
  lemma RangeEnd(rows: seq<Row>, h: Heap, level: nat, m: map<Key, Value>, start: Key, end: Key, c: nat, out: seq<Key>)
    requires Good(rows, h, level, m) && 1 <= c <= |rows| && (c < |rows| ==> !AtMost(rows[c].key, end))
    requires out == Select(KeysOf(rows)[..c - 1], InRange(start, end))
    ensures Ascending(out) && forall k :: k in out <==> k in m && AtMost(start, k) && AtMost(k, end)
  {
    var all, keep := KeysOf(rows), InRange(start, end);
    BottomLists(rows, h, level, m);
    RangeScan(all, m.Keys, start, end);
    if c < |rows| {
      EndPassed(end, rows[c].key);
      SelectStop(all, c - 1, keep);
    } else {
      assert all[..c - 1] == all;
    }
  }

  lemma PrefixTest(prefix: Key, k: Key)
    ensures WithPrefix(prefix)(k) <==> prefix <= k
  {
  }

  lemma RangeTest(start: Key, end: Key, k: Key)
    ensures InRange(start, end)(k) <==> AtMost(start, k) && AtMost(k, end)
  {
  }

  lemma KeyedAt(rows: seq<Row>, c: nat)
    requires Keyed(rows) && 1 <= c < |rows|
    ensures rows[c].node.key == rows[c].key
  {
  }

  /** One level of linking in. */
  method LinkOn(n: SkipNode, p: SkipNode, i: nat, ghost ns: set<SkipNode>)
    requires n in ns && p in ns && n != p && i < |Snap(ns)[n].next| && i < |Snap(ns)[p].next|
    modifies n, p
    ensures Snap(ns) == old(LinkedOn(Snap(ns), n, p, i))
  {
    n.next := n.next[i := p.next[i]];
    p.next := p.next[i := n];
  }

  /** One level of unlinking. */
  method UnlinkOn(c: SkipNode, p: SkipNode, i: nat, ghost ns: set<SkipNode>)
    requires c in ns && p in ns && c != p && i < |Snap(ns)[c].next| && i < |Snap(ns)[p].next|
    modifies p
    ensures Snap(ns) == old(UnlinkedOn(Snap(ns), c, p, i))
  {
    p.next := p.next[i := c.next[i]];
  }

  method SetValue(n: SkipNode, v: Value, ghost ns: set<SkipNode>)
    requires n in ns
    modifies n
    ensures Snap(ns) == old(var h := Snap(ns); h[n := h[n].(value := v)])
  {
    n.value := v;
  }

  /** A random height: any number of coin flips may come up heads. */
  method SkipLevel() returns (level: nat)
    ensures 1 <= level <= MAX_LEVEL
  {
    level := 1;
    while level < MAX_LEVEL
      invariant 1 <= level <= MAX_LEVEL
    {
      var heads: bool := *;
      if !heads {
        break;
      }
      level := level + 1;
    }
  }

  class SkipListStore {
    const head: SkipNode
    var level: nat
    ghost var rows: seq<Row>
    ghost var contents: map<Key, Value>

    /** The nodes in key order are `rows`; on every level each node points to the next one that
        reaches the level, so every level is a sorted sublist of the one below; no node but the head
        is taller than `level`; and the list stands for `contents`. */
    ghost predicate Valid()
      reads this, NodeSet(rows)
    {
      && Good(rows, Snap(NodeSet(rows)), level, contents)
      && rows[0].node == head && Keyed(rows)
    }

    constructor ()
      ensures Valid() && contents == map[] && fresh(NodeSet(rows))
    {
      var n := new SkipNode([], [], MAX_LEVEL);
      head := n;
      level := 1;
      rows := [Row(n, MAX_LEVEL, [])];
      contents := map[];
      new;
      var h := Snap(NodeSet(rows));
      assert rows[0].node in NodeSet(rows);
      forall i | 0 <= i < MAX_LEVEL ensures First(rows, 1, i) == 1 { }
      assert LinkedAt(rows, 0, h);
    }

    /** What a search has found so far: the predecessors on the levels from `i` up. */
    ghost predicate Preceded(key: Key, prev: seq<SkipNode?>, ps: seq<nat>, i: nat)
      reads this
    {
      && |prev| == |ps| == MAX_LEVEL && level <= MAX_LEVEL
      && forall j :: i <= j < level ==> IsPrev(rows, key, j, ps[j]) && prev[j] == rows[ps[j]].node
    }

    /** The predecessors of `key`, level by level from the top. */
    method FindPrev(key: Key) returns (prev: seq<SkipNode?>, ghost ps: seq<nat>)
      requires Valid()
      ensures Preceded(key, prev, ps, 0)
    {
      hide First, Less, Snap, Good, Shaped, NodeSet;
      ghost var h := Snap(NodeSet(rows));
      GoodFacts(rows, h, level, contents);
      prev, ps := seq(MAX_LEVEL, _ => null), seq(MAX_LEVEL, _ => 0);
      var curr, i := head, level;
      ghost var c: nat := 0;
      while i > 0
        invariant 0 <= i <= level && Preceded(key, prev, ps, i)
        invariant c < |rows| && curr == rows[c].node && (c == 0 || Less(rows[c].key, key)) && rows[c].height >= i
      {
        i := i - 1;
        curr, c := Advance(curr, i, key, c);
        prev, ps := prev[i := curr], ps[i := c];
      }
    }

    /** Right along level `i` while the next key is below `key`. */
    method Advance(from: SkipNode, i: nat, key: Key, ghost start: nat) returns (curr: SkipNode, ghost c: nat)
      requires Valid() && i < level
      requires start < |rows| && from == rows[start].node
      requires rows[start].height > i && (start == 0 || Less(rows[start].key, key))
      ensures IsPrev(rows, key, i, c) && c < |rows| && curr == rows[c].node
      ensures rows[c].height > i && (c == 0 || Less(rows[c].key, key))
    {
      hide First, Less, Snap, Good, NodeSet;
      ghost var h := Snap(NodeSet(rows));
      RowIn(rows, start);
      curr, c := from, start;
      LinkAt(rows, h, level, contents, c, i);
      SnapAt(NodeSet(rows), curr);
      while curr.next[i] != null && Less(curr.next[i].key, key)
        invariant c < |rows| && curr == rows[c].node && rows[c].height > i && (c == 0 || Less(rows[c].key, key))
        invariant |curr.next| == rows[c].height && curr.next[i] == NodeAt(rows, First(rows, c + 1, i))
        decreases |rows| - c
      {
        c := First(rows, c + 1, i);
        curr := curr.next[i];
        RowIn(rows, c);
        LinkAt(rows, h, level, contents, c, i);
        SnapAt(NodeSet(rows), curr);
      }
    }

    /** The first node at or past `key`, by the same search. */
    method Seek(key: Key) returns (curr: SkipNode?, prev: seq<SkipNode?>, ghost ps: seq<nat>, ghost b: nat)
      requires Valid()
      ensures Preceded(key, prev, ps, 0)
      ensures IsPlace(rows, key, b) && curr == NodeAt(rows, b)
    {
      hide First, Less, Snap, Good, Shaped, NodeSet, IsPlace;
      ghost var h := Snap(NodeSet(rows));
      GoodFacts(rows, h, level, contents);
      prev, ps := FindPrev(key);
      assert IsPrev(rows, key, 0, ps[0]);
      RowIn(rows, ps[0]);
      PlaceAfterPrev(rows, level, key, ps[0]);
      b := ps[0] + 1;
      LinkAt(rows, h, level, contents, ps[0], 0);
      SnapAt(NodeSet(rows), prev[0]);
      curr := prev[0].next[0];
    }

    method Get(key: Key) returns (r: Lookup)
      requires Valid()
      ensures r == Find(contents, key)
    {
      hide First, Less, Snap, Good;
      ghost var h := Snap(NodeSet(rows));
      assert Good(rows, h, level, contents);
      var curr, prev, ps, b := Seek(key);
      FoundOrAbsent(rows, h, level, contents, key, b);
      if curr != null && curr.key == key {
        SnapAt(NodeSet(rows), curr);
        return Found(curr.value);
      }
      return Missing;
    }

    method Set(key: Key, value: Value)
      requires Valid()
      modifies this, NodeSet(rows)
      ensures Valid() && contents == old(contents)[key := value]
      ensures forall n :: n in NodeSet(rows) && n !in old(NodeSet(rows)) ==> fresh(n)
    {
      hide First, Less, Snap, Good, NodeSet, Shaped, Linking, ArePrevs, IsPlace;
      ghost var h, ns := Snap(NodeSet(rows)), NodeSet(rows);
      assert Good(rows, h, level, contents);
      var curr, prev, ps, b := Seek(key);
      PlaceInRange(rows, key, b);
      FoundOrAbsent(rows, h, level, contents, key, b);
      if curr != null && curr.key == key {
        RowIn(rows, b);
        SetValue(curr, value, ns);
        UpdateStep(rows, h, level, contents, b, value);
        contents := contents[key := value];
        return;
      }

      var height := SkipLevel();
      if height > level {
        prev, ps := RaiseLevel(height, prev, key, ps);
      }
      InsertNode(key, value, height, prev, ps, b);
    }

    /** The head precedes everything on the levels not yet in use. */
    method RaiseLevel(height: nat, below: seq<SkipNode?>, key: Key, ghost qs: seq<nat>)
      returns (prev: seq<SkipNode?>, ghost ps: seq<nat>)
      requires Valid() && level < height <= MAX_LEVEL && Preceded(key, below, qs, 0)
      modifies this`level
      ensures Valid() && level == height && Preceded(key, prev, ps, 0)
    {
      hide First, Less, Snap, Good, NodeSet, Shaped;
      ghost var h, old_ := Snap(NodeSet(rows)), level;
      GoodFacts(rows, h, level, contents);
      GoodRaise(rows, h, level, height, contents);
      prev, ps := below, qs;
      var i := level;
      while i < height
        invariant old_ <= i <= height && |prev| == |ps| == MAX_LEVEL
        invariant forall j :: 0 <= j < i ==> IsPrev(rows, key, j, ps[j]) && prev[j] == rows[ps[j]].node
      {
        HeadIsPrev(rows, old_, key, i);
        prev, ps, i := prev[i := head], ps[i := 0], i + 1;
      }
      level := height;
    }

    /** Links a new node in on the levels below its height. */
    method InsertNode(key: Key, value: Value, height: nat, prev: seq<SkipNode?>, ghost ps: seq<nat>, ghost b: nat)
      requires Valid() && 1 <= height <= level
      requires Preceded(key, prev, ps, 0) && IsPlace(rows, key, b) && key !in contents
      modifies this, NodeSet(rows)
      ensures Valid() && contents == old(contents)[key := value] && level == old(level)
      ensures forall n :: n in NodeSet(rows) && n !in old(NodeSet(rows)) ==> fresh(n)
    {
      hide First, Less, Snap, Good, NodeSet, Shaped, Linking, IsPlace;
      ghost var h0, rs, qs := Snap(NodeSet(rows)), rows, ps[..level];
      GoodFacts(rs, h0, level, contents);
      PlaceInRange(rs, key, b);
      var n := new SkipNode(key, value, height);
      ghost var ns := NodeSet(rs) + {n};
      SnapNew(NodeSet(rs), n);
      NotInRows(rs, n);
      LinkingBegins(rs, h0, level, contents, qs, n, height, b, Snap(ns)[n]);
      var i := 0;
      while i < height
        invariant 0 <= i <= height && rows == rs && contents == old(contents) && level == old(level)
        invariant Linking(rs, qs, n, height, b, i, Snap(ns))
        invariant SameValues(rs, h0, Snap(ns)) && Snap(ns)[n].value == value
        modifies ns
      {
        LinkLevel(rs, level, key, qs, n, height, b, i, Snap(ns));
        LinkOn(n, prev[i], i, ns);
        i := i + 1;
      }
      InsertStep(rs, h0, Snap(ns), level, contents, key, qs, n, height, b);
      InsertedNodes(rs, b, Row(n, height, key));
      rows, contents := Inserted(rs, b, Row(n, height, key)), contents[key := value];
    }

    method Del(key: Key)
      requires Valid()
      modifies this, NodeSet(rows)
      ensures Valid() && contents == old(contents) - {key} && level == old(level)
      ensures NodeSet(rows) <= old(NodeSet(rows))
    {
      hide First, Less, Snap, Good, NodeSet, Shaped, Unlinking, IsPlace;
      ghost var h := Snap(NodeSet(rows));
      assert Good(rows, h, level, contents);
      var curr, prev, ps, b := Seek(key);
      PlaceInRange(rows, key, b);
      FoundOrAbsent(rows, h, level, contents, key, b);
      if curr != null && curr.key == key {
        RemoveNode(key, curr, prev, ps, b);
      } else {
        NothingRemoved(contents, key);
      }
    }

    /** Unlinks a node on all its levels. */
    method RemoveNode(key: Key, curr: SkipNode, prev: seq<SkipNode?>, ghost ps: seq<nat>, ghost b: nat)
      requires Valid() && Preceded(key, prev, ps, 0) && IsPlace(rows, key, b)
      requires b < |rows| && curr == rows[b].node && rows[b].key == key
      modifies this, NodeSet(rows)
      ensures Valid() && contents == old(contents) - {key} && level == old(level)
      ensures NodeSet(rows) <= old(NodeSet(rows))
    {
      hide First, Less, Snap, Good, NodeSet, Shaped, Unlinking, IsPlace;
      ghost var h0, rs, qs, ns := Snap(NodeSet(rows)), rows, ps[..level], NodeSet(rows);
      PlaceInRange(rs, key, b);
      UnlinkingBegins(rs, h0, level, contents, qs, b);
      RowIn(rs, b);
      SnapAt(ns, curr);
      var i := 0;
      while i < |curr.next|
        invariant 0 <= i <= rs[b].height == |curr.next|
        invariant rows == rs && contents == old(contents) && level == old(level)
        invariant Unlinking(rs, qs, b, i, Snap(ns)) && SameValues(rs, h0, Snap(ns))
        modifies ns
      {
        UnlinkLevel(rs, level, key, qs, b, i, Snap(ns));
        UnlinkOn(curr, prev[i], i, ns);
        SnapAt(ns, curr);
        i := i + 1;
      }
      RemoveStep(rs, h0, Snap(ns), level, contents, key, qs, b);
      RemovedNodes(rs, b);
      rows, contents := Removed(rs, b), contents - {key};
      SnapFrame(rows, level, contents, ns);
    }

    method PrefixKeys(prefix: Key) returns (out: seq<Key>)
      requires Valid()
      ensures Ascending(out) && forall k :: k in out <==> k in contents && prefix <= k
    {
      hide First, Less, Snap, Good, NodeSet, Shaped, IsPlace, Select, Ascending, AtMost, WithPrefix, Keyed;
      ghost var h, keep := Snap(NodeSet(rows)), WithPrefix(prefix);
      GoodFacts(rows, h, level, contents);
      BottomLists(rows, h, level, contents);
      ghost var all := KeysOf(rows);
      PrefixScan(all, contents.Keys, prefix);
      var curr, prev, ps, c := Seek(prefix);
      PlaceInRange(rows, prefix, c);
      ScanStart(rows, prefix, c, keep);
      ghost var c0 := c;
      PlaceOnward(rows, prefix, c0, c);
      out := [];
      while curr != null && prefix <= curr.key
        invariant 1 <= c0 <= c <= |rows| && curr == NodeAt(rows, c)
        invariant out == Select(all[..c - 1], keep)
        invariant c < |rows| ==> AtMost(prefix, rows[c].key)
        decreases |rows| - c
      {
        SelectStep(all, c - 1, keep);
        BottomLink(rows, h, level, contents, c);
        RowIn(rows, c);
        SnapAt(NodeSet(rows), curr);
        KeyedAt(rows, c);
        PrefixTest(prefix, curr.key);
        out := out + [curr.key];
        PlaceOnward(rows, prefix, c0, c + 1);
        curr, c := curr.next[0], c + 1;
      }
      if curr == null {
        assert all[..c - 1] == all;
      } else {
        KeyedAt(rows, c);
        PrefixLost(prefix, curr.key);
        SelectStop(all, c - 1, keep);
      }
    }

    method RangeKeys(start: Key, end: Key) returns (out: seq<Key>)
      requires Valid()
      ensures Ascending(out) && forall k :: k in out <==> k in contents && AtMost(start, k) && AtMost(k, end)
    {
      hide First, Less, Snap, Good, NodeSet, IsPlace, Select, Ascending, AtMost, InRange, Keyed;
      ghost var h, keep := Snap(NodeSet(rows)), InRange(start, end);
      GoodFacts(rows, h, level, contents);
      ghost var all := KeysOf(rows);
      var curr, prev, ps, c := Seek(start);
      PlaceInRange(rows, start, c);
      RangeStart(rows, start, end, c);
      out := [];
      while curr != null && AtMost(curr.key, end)
        invariant 1 <= c <= |rows| && curr == NodeAt(rows, c)
        invariant out == Select(all[..c - 1], keep)
        decreases |rows| - c
      {
        SelectStep(all, c - 1, keep);
        BottomLink(rows, h, level, contents, c);
        RowIn(rows, c);
        SnapAt(NodeSet(rows), curr);
        KeyedAt(rows, c);
        RangeTest(start, end, curr.key);
        if AtMost(start, curr.key) {
          out := out + [curr.key];
        }
        curr, c := curr.next[0], c + 1;
      }
      if curr != null {
        KeyedAt(rows, c);
      }
      RangeEnd(rows, h, level, contents, start, end, c, out);
    }
  }
}
