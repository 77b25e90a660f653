/** The two maps most stores are made of: strings, and hashes of fields. */
module Tables {
  import opened Bytes

  datatype Tables = Tables(strings: map<Key, Value>, hashes: map<Key, Fields>)

  const EMPTY := Tables(map[], map[])

  function FieldsAt(d: map<Key, Fields>, h: Key): Fields {
    if h in d then d[h] else map[]
  }

  function FieldsOf(t: Tables, h: Key): Fields {
    FieldsAt(t.hashes, h)
  }

  function SetString(t: Tables, k: Key, v: Value): Tables {
    t.(strings := t.strings[k := v])
  }

  function SetField(t: Tables, h: Key, f: Key, v: Value): Tables {
    t.(hashes := t.hashes[h := FieldsOf(t, h)[f := v]])
  }

  function Remove(t: Tables, k: Key): Tables {
    Tables(t.strings - {k}, t.hashes - {k})
  }

  // ----- one pair of tables laid over another

  /** Hash by hash and field by field, the upper one on top. */
  function OverHashes(d: map<Key, Fields>, e: map<Key, Fields>): map<Key, Fields> {
    map h | h in d.Keys + e.Keys :: if h !in e then d[h] else if h !in d then e[h] else d[h] + e[h]
  }

  function Over(t: Tables, u: Tables): Tables {
    Tables(t.strings + u.strings, OverHashes(t.hashes, u.hashes))
  }

  lemma OverAt(d: map<Key, Fields>, e: map<Key, Fields>, h: Key)
    ensures FieldsAt(OverHashes(d, e), h) == FieldsAt(d, h) + FieldsAt(e, h)
    ensures h in OverHashes(d, e) <==> h in d || h in e
  {
    assert FieldsAt(d, h) + map[] == FieldsAt(d, h) && map[] + FieldsAt(e, h) == FieldsAt(e, h);
  }

  lemma PlusAssociates(a: Fields, b: Fields, c: Fields)
    ensures a + b + c == a + (b + c)
  {
  }

  lemma OverAssociatesAt(a: map<Key, Fields>, b: map<Key, Fields>, c: map<Key, Fields>, h: Key)
    ensures var x, y := OverHashes(OverHashes(a, b), c), OverHashes(a, OverHashes(b, c));
            (h in x <==> h in y) && FieldsAt(x, h) == FieldsAt(y, h)
  {
    hide OverHashes, FieldsAt;
    OverAt(a, b, h);
    OverAt(b, c, h);
    OverAt(OverHashes(a, b), c, h);
    OverAt(a, OverHashes(b, c), h);
    PlusAssociates(FieldsAt(a, h), FieldsAt(b, h), FieldsAt(c, h));
  }

  lemma OverHashesAssociates(a: map<Key, Fields>, b: map<Key, Fields>, c: map<Key, Fields>)
    ensures OverHashes(OverHashes(a, b), c) == OverHashes(a, OverHashes(b, c))
  {
    hide OverHashes;
    var x, y := OverHashes(OverHashes(a, b), c), OverHashes(a, OverHashes(b, c));
    forall h ensures (h in x <==> h in y) && (h in x ==> x[h] == y[h]) {
      OverAssociatesAt(a, b, c, h);
    }
  }

  lemma OverAssociates(a: Tables, b: Tables, c: Tables)
    ensures Over(Over(a, b), c) == Over(a, Over(b, c))
  {
    hide OverHashes;
    assert a.strings + b.strings + c.strings == a.strings + (b.strings + c.strings);
    OverHashesAssociates(a.hashes, b.hashes, c.hashes);
  }

  /** A field set is a field laid on top. */
  lemma OverField(d: map<Key, Fields>, h: Key, f: Key, v: Value)
    ensures OverHashes(d, map[h := map[f := v]]) == d[h := FieldsAt(d, h)[f := v]]
  {
    var e := map[h := map[f := v]];
    assert FieldsAt(d, h)[f := v] == FieldsAt(d, h) + map[f := v];
    assert map[] + map[f := v] == map[f := v];
  }

  lemma OverNothing(t: Tables)
    ensures Over(t, EMPTY) == t && Over(EMPTY, t) == t
  {
    assert t.strings + map[] == t.strings && map[] + t.strings == t.strings;
    assert OverHashes(t.hashes, map[]) == t.hashes && OverHashes(map[], t.hashes) == t.hashes;
  }

  /** The upper tables have everything the lower ones have a value for. */
  ghost predicate Covers(u: Tables, t: Tables) {
    t.strings.Keys <= u.strings.Keys &&
    forall h :: h in t.hashes ==> h in u.hashes && t.hashes[h].Keys <= u.hashes[h].Keys
  }

  /** What lies below does not show if and only if all of it is covered. */
  lemma CoversExactly(t: Tables, u: Tables)
    ensures Over(t, u) == u <==> Covers(u, t)
  {
    var o := Over(t, u);
    if o == u {
      forall k | k in t.strings ensures k in u.strings {
        assert k in o.strings;
      }
      forall h | h in t.hashes ensures h in u.hashes && t.hashes[h].Keys <= u.hashes[h].Keys {
        assert h in o.hashes && o.hashes[h] == t.hashes[h] + u.hashes[h];
      }
    }
    if Covers(u, t) {
      assert o.strings == u.strings;
      forall h | h in o.hashes ensures h in u.hashes && o.hashes[h] == u.hashes[h] {
        if h in t.hashes {
          assert t.hashes[h] + u.hashes[h] == u.hashes[h];
        }
      }
      assert o.hashes == u.hashes;
    }
  }

  // ----- ranging over a map, in any order

  /** Some entries of a map are still to come, the others are done. */
  ghost predicate Ranged<T>(m: map<Key, T>, todo: map<Key, T>, done: map<Key, T>) {
    && (forall k :: k in m <==> k in todo || k in done)
    && (forall k :: k in todo ==> k !in done && todo[k] == m[k])
    && (forall k :: k in done ==> done[k] == m[k])
  }

  lemma RangeStart<T>(m: map<Key, T>)
    ensures Ranged(m, m, map[])
  {
  }

  lemma RangeStep<T>(m: map<Key, T>, todo: map<Key, T>, done: map<Key, T>, k: Key)
    requires Ranged(m, todo, done) && k in todo
    ensures Ranged(m, todo - {k}, done[k := todo[k]]) && k !in done && |todo - {k}| == |todo| - 1
  {
    assert todo.Keys == (todo - {k}).Keys + {k};
  }

  lemma RangeEnd<T>(m: map<Key, T>, done: map<Key, T>)
    requires Ranged(m, map[], done)
    ensures done == m
  {
  }
}
