/** Byte strings as Go's `string`: compared byte by byte, a proper prefix being the smaller. */
module Bytes {

  type byte = b: int | 0 <= b < 256

  type Key = seq<byte>
  type Value = seq<byte>

  /** The fields of a hash. */
  type Fields = map<Key, Value>

  /** The bytes of an ASCII text. */
  function Ascii(s: string): (b: seq<byte>)
    ensures |b| == |s|
  {
    seq(|s|, i requires 0 <= i < |s| => Code(s[i]))
  }

  function Code(c: char): byte {
    c as int % 256
  }

  /** A slice with one element more, or less. */
  function InsertAt<T>(s: seq<T>, i: nat, x: T): seq<T>
    requires i <= |s|
  {
    s[..i] + [x] + s[i..]
  }

  function RemoveAt<T>(s: seq<T>, i: nat): seq<T>
    requires i < |s|
  {
    s[..i] + s[i + 1..]
  }

  lemma NothingRemoved(m: map<Key, Value>, key: Key)
    requires key !in m
    ensures m - {key} == m
  {
  }

  /** Go's `<` on strings. */
  predicate Less(a: Key, b: Key) {
    if b == [] then false
    else if a == [] then true
    else if a[0] != b[0] then a[0] < b[0]
    else Less(a[1..], b[1..])
  }

  /** Go's `<=` on strings. */
  predicate AtMost(a: Key, b: Key) {
    !Less(b, a)
  }

  lemma LessIrreflexive(a: Key)
    ensures !Less(a, a)
  {
  }

  lemma {:induction false} LessTransitive(a: Key, b: Key, c: Key)
    requires Less(a, b) && Less(b, c)
    ensures Less(a, c)
  {
    if a != [] && a[0] == b[0] == c[0] {
      LessTransitive(a[1..], b[1..], c[1..]);
    }
  }

  lemma {:induction false} LessTotal(a: Key, b: Key)
    ensures Less(a, b) || a == b || Less(b, a)
  {
    if a != [] && b != [] && a[0] == b[0] {
      LessTotal(a[1..], b[1..]);
      assert a == [a[0]] + a[1..] && b == [b[0]] + b[1..];
    }
  }

  /** The facts about the order that the stores rely on, for callers that need all of them at once. */
  lemma LessIsStrictTotalOrder()
    ensures forall a: Key :: !Less(a, a)
    ensures forall a: Key, b: Key, c: Key :: Less(a, b) && Less(b, c) ==> Less(a, c)
    ensures forall a: Key, b: Key :: Less(a, b) || a == b || Less(b, a)
  {
    forall a: Key ensures !Less(a, a) { LessIrreflexive(a); }
    forall a: Key, b: Key, c: Key | Less(a, b) && Less(b, c) ensures Less(a, c) { LessTransitive(a, b, c); }
    forall a: Key, b: Key ensures Less(a, b) || a == b || Less(b, a) { LessTotal(a, b); }
  }

  /** A prefix of a string is at most that string. */
  lemma {:induction false} PrefixIsAtMost(p: Key, k: Key)
    requires p <= k
    ensures AtMost(p, k)
  {
    if p != [] {
      PrefixIsAtMost(p[1..], k[1..]);
    }
  }

  /** Keys that share a prefix are contiguous: nothing above the prefix but outside it
      is below a key that carries it. */
  lemma {:induction false} PrefixContiguous(p: Key, k: Key, m: Key)
    requires Less(p, k) && !(p <= k) && p <= m
    ensures Less(m, k)
  {
    if p[0] == k[0] {
      assert p == [p[0]] + p[1..] && k == [k[0]] + k[1..];
      PrefixContiguous(p[1..], k[1..], m[1..]);
    }
  }

  /** Past a key above the prefix that does not carry it, no key carries it. */
  lemma PrefixPassed(p: Key, k: Key)
    requires Less(p, k) && !(p <= k)
    ensures forall m: Key :: AtMost(k, m) ==> !(p <= m)
  {
    forall m: Key | AtMost(k, m) ensures !(p <= m) {
      if p <= m { PrefixContiguous(p, k, m); }
    }
  }

  lemma EndPassed(end: Key, k: Key)
    requires Less(end, k)
    ensures forall m: Key :: AtMost(k, m) ==> !AtMost(m, end)
  {
    LessIsStrictTotalOrder();
  }

  /** Strictly increasing lists of keys. */
  ghost predicate Ascending(ks: seq<Key>) {
    forall i, j :: 0 <= i < j < |ks| ==> Less(ks[i], ks[j])
  }

  /** A strictly increasing list is determined by its set of elements. */
  lemma {:induction false} AscendingUnique(a: seq<Key>, b: seq<Key>)
    requires Ascending(a) && Ascending(b)
    requires forall k :: k in a <==> k in b
    ensures a == b
  {
    if a == [] {
      assert forall i :: 0 <= i < |b| ==> b[i] in b;
    } else {
      assert a[0] in b;
      assert b[0] in a;
      assert a[0] == b[0] by {
        var i :| 0 <= i < |b| && b[i] == a[0];
        var j :| 0 <= j < |a| && a[j] == b[0];
        if i > 0 && j > 0 {
          LessTransitive(a[0], b[0], a[0]);
          LessIrreflexive(a[0]);
        }
      }
      assert a == [a[0]] + a[1..] && b == [b[0]] + b[1..];
      forall k ensures k in a[1..] <==> k in b[1..] {
        LessIrreflexive(a[0]);
        assert k in a <==> k == a[0] || k in a[1..];
        assert k in b <==> k == b[0] || k in b[1..];
      }
      AscendingUnique(a[1..], b[1..]);
    }
  }

  // ----- selecting from an ascending list, the specification of every ordered scan

  ghost function Select(ks: seq<Key>, keep: Key -> bool): seq<Key> {
    if ks == [] then [] else (if keep(ks[0]) then [ks[0]] else []) + Select(ks[1..], keep)
  }

  ghost function WithPrefix(prefix: Key): Key -> bool {
    k => prefix <= k
  }

  ghost function InRange(start: Key, end: Key): Key -> bool {
    k => AtMost(start, k) && AtMost(k, end)
  }

  lemma {:induction false} SelectJoin(a: seq<Key>, b: seq<Key>, keep: Key -> bool)
    ensures Select(a + b, keep) == Select(a, keep) + Select(b, keep)
  {
    if a == [] {
      assert a + b == b;
    } else {
      assert (a + b)[1..] == a[1..] + b;
      SelectJoin(a[1..], b, keep);
    }
  }

  lemma {:induction false} SelectNone(ks: seq<Key>, keep: Key -> bool)
    requires forall k :: k in ks ==> !keep(k)
    ensures Select(ks, keep) == []
  {
    if ks != [] {
      SelectNone(ks[1..], keep);
    }
  }

  lemma {:induction false} SelectMembers(ks: seq<Key>, keep: Key -> bool)
    ensures forall k :: k in Select(ks, keep) <==> k in ks && keep(k)
  {
    if ks != [] {
      SelectMembers(ks[1..], keep);
      assert ks == [ks[0]] + ks[1..];
    }
  }

  /** Selecting from an ascending list lists exactly the wanted keys, in ascending order. */
  lemma {:induction false} SelectAscending(ks: seq<Key>, keep: Key -> bool)
    requires Ascending(ks)
    ensures Ascending(Select(ks, keep))
    ensures forall k :: k in Select(ks, keep) <==> k in ks && keep(k)
  {
    SelectMembers(ks, keep);
    if ks != [] {
      var rest := Select(ks[1..], keep);
      SelectAscending(ks[1..], keep);
      forall k | k in rest ensures Less(ks[0], k) {
        var i :| 0 <= i < |ks[1..]| && ks[1..][i] == k;
        assert ks[i + 1] == k;
      }
    }
  }

  /** One more key scanned. */
  lemma SelectStep(all: seq<Key>, n: nat, keep: Key -> bool)
    requires n < |all|
    ensures Select(all[..n + 1], keep) == Select(all[..n], keep) + (if keep(all[n]) then [all[n]] else [])
  {
    assert all[..n + 1] == all[..n] + [all[n]];
    SelectJoin(all[..n], [all[n]], keep);
  }

  /** A scan may stop at a key from which on nothing is wanted. */
  lemma SelectStop(all: seq<Key>, n: nat, keep: Key -> bool)
    requires Ascending(all) && n < |all|
    requires forall k :: AtMost(all[n], k) ==> !keep(k)
    ensures Select(all, keep) == Select(all[..n], keep)
  {
    forall k | k in all[n..] ensures !keep(k) {
      var i :| 0 <= i < |all[n..]| && all[n..][i] == k;
      LessIsStrictTotalOrder();
      assert i > 0 ==> Less(all[n], all[n + i]);
      assert AtMost(all[n], k);
    }
    assert all == all[..n] + all[n..];
    SelectJoin(all[..n], all[n..], keep);
    SelectNone(all[n..], keep);
  }

  /** What a prefix scan over the ascending list of the keys `ks` returns. */
  lemma PrefixScan(all: seq<Key>, ks: set<Key>, prefix: Key)
    requires Ascending(all) && forall k :: k in all <==> k in ks
    ensures Ascending(Select(all, WithPrefix(prefix)))
    ensures forall k :: k in Select(all, WithPrefix(prefix)) <==> k in ks && prefix <= k
    ensures forall k :: WithPrefix(prefix)(k) ==> AtMost(prefix, k)
  {
    SelectAscending(all, WithPrefix(prefix));
    forall k | WithPrefix(prefix)(k) ensures AtMost(prefix, k) { PrefixIsAtMost(prefix, k); }
  }

  lemma RangeScan(all: seq<Key>, ks: set<Key>, start: Key, end: Key)
    requires Ascending(all) && forall k :: k in all <==> k in ks
    ensures Ascending(Select(all, InRange(start, end)))
    ensures forall k :: k in Select(all, InRange(start, end)) <==> k in ks && AtMost(start, k) && AtMost(k, end)
    ensures forall k :: InRange(start, end)(k) ==> AtMost(start, k)
  {
    SelectAscending(all, InRange(start, end));
  }
}
