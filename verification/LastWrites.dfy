/** What a sequence of edits leaves behind, read off the sequence itself: the last edit to touch an entry decides. */
module LastWrites {
  import opened Bytes
  import opened Lookups
  import opened Tables

  datatype Edit =
    | PutString(key: Key, value: Value)
    | PutField(key: Key, field: Key, value: Value)
    | Erase(key: Key)
    | Pass

  function Edited(t: Tables, e: Edit): Tables {
    match e
    case PutString(k, v) => SetString(t, k, v)
    case PutField(h, f, v) => SetField(t, h, f, v)
    case Erase(k) => Remove(t, k)
    case Pass => t
  }

  /** After the edit that put the string, nothing puts it again or erases its key. */
  ghost predicate StringLast(es: seq<Edit>, k: Key, v: Value) {
    exists i :: 0 <= i < |es| && es[i] == PutString(k, v) &&
                forall j :: i < j < |es| ==> es[j] != Erase(k) && !(es[j].PutString? && es[j].key == k)
  }

  ghost predicate FieldLast(es: seq<Edit>, h: Key, f: Key, v: Value) {
    exists i :: 0 <= i < |es| && es[i] == PutField(h, f, v) &&
                forall j :: i < j < |es| ==>
                  es[j] != Erase(h) && !(es[j].PutField? && es[j].key == h && es[j].field == f)
  }

  /** Some field of the hash was put since its key was last erased. */
  ghost predicate HashLast(es: seq<Edit>, h: Key) {
    exists i :: 0 <= i < |es| && es[i].PutField? && es[i].key == h && forall j :: i < j < |es| ==> es[j] != Erase(h)
  }

  /** The tables hold what the last edits say, for every key and field. */
  ghost predicate Means(t: Tables, es: seq<Edit>) {
    && (forall k, v :: Find(t.strings, k) == Found(v) <==> StringLast(es, k, v))
    && (forall h :: h in t.hashes <==> HashLast(es, h))
    && (forall h, f, v :: Find(FieldsOf(t, h), f) == Found(v) <==> FieldLast(es, h, f, v))
  }

  lemma StringMore(es: seq<Edit>, e: Edit, k: Key, v: Value)
    ensures StringLast(es + [e], k, v) <==>
              e == PutString(k, v) || (StringLast(es, k, v) && e != Erase(k) && !(e.PutString? && e.key == k))
  {
    var fs := es + [e];
    assert fs[|es|] == e && forall i :: 0 <= i < |es| ==> fs[i] == es[i];
    if StringLast(es, k, v) {
      var i :| 0 <= i < |es| && es[i] == PutString(k, v) &&
               forall j :: i < j < |es| ==> es[j] != Erase(k) && !(es[j].PutString? && es[j].key == k);
      assert fs[i] == PutString(k, v);
    }
  }

  lemma FieldMore(es: seq<Edit>, e: Edit, h: Key, f: Key, v: Value)
    ensures FieldLast(es + [e], h, f, v) <==>
              e == PutField(h, f, v) ||
              (FieldLast(es, h, f, v) && e != Erase(h) && !(e.PutField? && e.key == h && e.field == f))
  {
    var fs := es + [e];
    assert fs[|es|] == e && forall i :: 0 <= i < |es| ==> fs[i] == es[i];
    if FieldLast(es, h, f, v) {
      var i :| 0 <= i < |es| && es[i] == PutField(h, f, v) && forall j :: i < j < |es| ==>
                 es[j] != Erase(h) && !(es[j].PutField? && es[j].key == h && es[j].field == f);
      assert fs[i] == PutField(h, f, v);
    }
  }

  lemma HashMore(es: seq<Edit>, e: Edit, h: Key)
    ensures HashLast(es + [e], h) <==> (e.PutField? && e.key == h) || (HashLast(es, h) && e != Erase(h))
  {
    var fs := es + [e];
    assert fs[|es|] == e && forall i :: 0 <= i < |es| ==> fs[i] == es[i];
    if HashLast(es, h) {
      var i :| 0 <= i < |es| && es[i].PutField? && es[i].key == h && forall j :: i < j < |es| ==> es[j] != Erase(h);
      assert fs[i] == es[i];
    }
  }

  lemma NothingMeans()
    ensures Means(EMPTY, [])
  {
  }

  /** One more edit. */
  lemma MeansMore(t: Tables, es: seq<Edit>, e: Edit)
    requires Means(t, es)
    ensures Means(Edited(t, e), es + [e])
  {
    hide StringLast, FieldLast, HashLast;
    var u, fs := Edited(t, e), es + [e];
    forall k, v ensures Find(u.strings, k) == Found(v) <==> StringLast(fs, k, v) {
      assert Find(t.strings, k) == Found(v) <==> StringLast(es, k, v);
      StringMore(es, e, k, v);
    }
    forall h ensures h in u.hashes <==> HashLast(fs, h) {
      assert h in t.hashes <==> HashLast(es, h);
      HashMore(es, e, h);
    }
    forall h, f, v ensures Find(FieldsOf(u, h), f) == Found(v) <==> FieldLast(fs, h, f, v) {
      assert Find(FieldsOf(t, h), f) == Found(v) <==> FieldLast(es, h, f, v);
      FieldMore(es, e, h, f, v);
    }
  }
}
