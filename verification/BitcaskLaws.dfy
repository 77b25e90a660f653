/** What a Bitcask log says, read off its records, and how the records stand in the file, byte by byte. */
module BitcaskLaws {
  import opened Bytes
  import opened Lookups
  import opened Tables
  import opened Wire
  import opened Bitcask
  import LastWrites

  // ----- the last record that touches an entry decides

  /** The last Set or Del of the key is this Set. */
  ghost predicate SetLast(rs: seq<Record>, k: Key, v: Value) {
    exists i :: 0 <= i < |rs| && rs[i] == Set(k, v) &&
                forall j :: i < j < |rs| ==> rs[j] != Del(k) && !(rs[j].Set? && rs[j].key == k)
  }

  /** The last HSet of the field or Del of its hash is this HSet. */
  ghost predicate HSetLast(rs: seq<Record>, h: Key, f: Key, v: Value) {
    exists i :: 0 <= i < |rs| && rs[i] == HSet(h, f, v) &&
                forall j :: i < j < |rs| ==> rs[j] != Del(h) && !(rs[j].HSet? && rs[j].hash == h && rs[j].field == f)
  }

  /** Some field of the hash was set since it was last deleted. */
  ghost predicate HashSet(rs: seq<Record>, h: Key) {
    exists i :: 0 <= i < |rs| && rs[i].HSet? && rs[i].hash == h && forall j :: i < j < |rs| ==> rs[j] != Del(h)
  }

  /** The maps hold exactly the last writes. */
  ghost predicate Holds(t: Tables, rs: seq<Record>) {
    && (forall k, v :: Find(t.strings, k) == Found(v) <==> SetLast(rs, k, v))
    && (forall h :: h in t.hashes <==> HashSet(rs, h))
    && (forall h, f, v :: h in t.hashes && Find(t.hashes[h], f) == Found(v) <==> HSetLast(rs, h, f, v))
  }

  function EditOf(r: Record): LastWrites.Edit {
    match r
    case Set(k, v) => LastWrites.PutString(k, v)
    case Del(k) => LastWrites.Erase(k)
    case HSet(h, f, v) => LastWrites.PutField(h, f, v)
  }

  function Edits(rs: seq<Record>): (es: seq<LastWrites.Edit>)
    ensures |es| == |rs| && forall i :: 0 <= i < |rs| ==> es[i] == EditOf(rs[i])
  {
    seq(|rs|, i requires 0 <= i < |rs| => EditOf(rs[i]))
  }

  lemma {:induction false} AppliedMeans(rs: seq<Record>)
    ensures LastWrites.Means(ApplyAll(EMPTY, rs), Edits(rs))
  {
    hide LastWrites.Means;
    if rs == [] {
      LastWrites.NothingMeans();
    } else {
      var init, r := rs[..|rs| - 1], rs[|rs| - 1];
      AppliedMeans(init);
      ApplyExtends(EMPTY, init, r);
      assert rs == init + [r];
      LastWrites.MeansMore(ApplyAll(EMPTY, init), Edits(init), EditOf(r));
      assert Edits(rs) == Edits(init) + [EditOf(r)];
    }
  }

  lemma SetLastIs(rs: seq<Record>, k: Key, v: Value)
    ensures SetLast(rs, k, v) <==> LastWrites.StringLast(Edits(rs), k, v)
  {
    var es := Edits(rs);
    assert forall i :: 0 <= i < |rs| ==> (rs[i] == Set(k, v) <==> es[i] == LastWrites.PutString(k, v));
    assert forall i :: 0 <= i < |rs| ==> (rs[i] == Del(k) <==> es[i] == LastWrites.Erase(k));
    assert forall i :: 0 <= i < |rs| ==> (rs[i].Set? && rs[i].key == k <==> es[i].PutString? && es[i].key == k);
  }

  lemma HSetLastIs(rs: seq<Record>, h: Key, f: Key, v: Value)
    ensures HSetLast(rs, h, f, v) <==> LastWrites.FieldLast(Edits(rs), h, f, v)
  {
    var es := Edits(rs);
    assert forall i :: 0 <= i < |rs| ==> (rs[i] == HSet(h, f, v) <==> es[i] == LastWrites.PutField(h, f, v));
    assert forall i :: 0 <= i < |rs| ==> (rs[i] == Del(h) <==> es[i] == LastWrites.Erase(h));
    assert forall i :: 0 <= i < |rs| ==> (rs[i].HSet? && rs[i].hash == h && rs[i].field == f <==>
                                          es[i].PutField? && es[i].key == h && es[i].field == f);
  }

  lemma HashSetIs(rs: seq<Record>, h: Key)
    ensures HashSet(rs, h) <==> LastWrites.HashLast(Edits(rs), h)
  {
    var es := Edits(rs);
    assert forall i :: 0 <= i < |rs| ==> (rs[i].HSet? && rs[i].hash == h <==> es[i].PutField? && es[i].key == h);
    assert forall i :: 0 <= i < |rs| ==> (rs[i] == Del(h) <==> es[i] == LastWrites.Erase(h));
  }

  lemma AppliedHolds(rs: seq<Record>)
    ensures Holds(ApplyAll(EMPTY, rs), rs)
  {
    hide ApplyAll, SetLast, HSetLast, HashSet, LastWrites.StringLast, LastWrites.FieldLast, LastWrites.HashLast;
    var t := ApplyAll(EMPTY, rs);
    AppliedMeans(rs);
    forall k, v ensures Find(t.strings, k) == Found(v) <==> SetLast(rs, k, v) {
      SetLastIs(rs, k, v);
    }
    forall h ensures h in t.hashes <==> HashSet(rs, h) {
      HashSetIs(rs, h);
    }
    forall h, f, v ensures h in t.hashes && Find(t.hashes[h], f) == Found(v) <==> HSetLast(rs, h, f, v) {
      assert Find(FieldsOf(t, h), f) == Found(v) <==> LastWrites.FieldLast(Edits(rs), h, f, v);
      HSetLastIs(rs, h, f, v);
    }
  }

  /** A log of whole records is recovered to exactly the last writes in it. */
  lemma RecoveredExactly(rs: seq<Record>)
    requires AllFit(rs)
    ensures Open(MAGIC + LogOf(rs)).Opened? && Holds(Open(MAGIC + LogOf(rs)).tables, rs)
  {
    hide Holds, Open, ApplyAll;
    OpenRebuilds(rs);
    AppliedHolds(rs);
  }

  /** A store holds the last writes made to it. */
  lemma StoreHolds(s: BitcaskStore)
    requires s.Valid()
    ensures Holds(s.Now(), s.records)
  {
    hide Holds, ApplyAll;
    AppliedHolds(s.records);
  }

  /** However often it is closed and reopened, a store ends with the last writes of the run. */
  method RunHolds(actions: seq<Action>) returns (t: Tables)
    requires forall i :: 0 <= i < |actions| && actions[i].Do? ==> Fits(actions[i].rec)
    ensures Holds(t, Records(actions))
  {
    hide Holds, ApplyAll, Fits, Records;
    t := RunWithRestarts(actions);
    AppliedHolds(Records(actions));
  }

  // ----- the bytes of a record

  /** The file starts with "FCBT01". A record is the letter of its operation and its strings, each behind its length in
      four bytes, the highest first. */
  ghost predicate IsRecord(b: seq<byte>, r: Record) {
    match r
    case Set(k, v) => exists x, y :: Counted(x, k) && Counted(y, v) && b == Ascii("S") + x + y
    case Del(k) => exists x :: Counted(x, k) && b == Ascii("D") + x
    case HSet(h, f, v) =>
      exists x, y, z :: Counted(x, h) && Counted(y, f) && Counted(z, v) && b == Ascii("H") + x + y + z
  }

  lemma Letters()
    ensures Ascii("S") == [83] && Ascii("D") == [68] && Ascii("H") == [72] && MAGIC == Ascii("FCBT01")
  {
  }

  /** What is written, and what is recovered, is that form and no other. */
  lemma EncodedExactly(b: seq<byte>, r: Record)
    ensures (IsRecord(b, r) <==> Fits(r) && b == Encode(r)) && MAGIC == Ascii("FCBT01")
  {
    Letters();
    if Fits(r) {
      EncodedAs(r);
    }
    if IsRecord(b, r) {
      ReadAs(b, r);
    }
  }

  lemma EncodedAs(r: Record)
    requires Fits(r)
    ensures IsRecord(Encode(r), r)
  {
    hide PutString, Counted, PutAll, Ascii;
    Letters();
    PutParts(r);
    forall p | p in Parts(r) ensures Counted(PutString(p), p) {
      PutCounted(p);
    }
    match r
    case Set(k, v) =>
      assert k in Parts(r) && v in Parts(r);
      assert Encode(r) == Ascii("S") + PutString(k) + PutString(v);
    case Del(k) =>
      assert k in Parts(r);
      assert Encode(r) == Ascii("D") + PutString(k);
    case HSet(h, f, v) =>
      assert h in Parts(r) && f in Parts(r) && v in Parts(r);
      assert Encode(r) == Ascii("H") + PutString(h) + PutString(f) + PutString(v);
  }

  lemma ReadAs(b: seq<byte>, r: Record)
    requires IsRecord(b, r)
    ensures Fits(r) && b == Encode(r)
  {
    hide PutString, Counted, PutAll, Ascii;
    Letters();
    PutParts(r);
    match r
    case Set(k, v) =>
      var x, y :| Counted(x, k) && Counted(y, v) && b == Ascii("S") + x + y;
      CountedExactly(x, k);
      CountedExactly(y, v);
      assert Encode(r) == Ascii("S") + PutString(k) + PutString(v);
    case Del(k) =>
      var x :| Counted(x, k) && b == Ascii("D") + x;
      CountedExactly(x, k);
    case HSet(h, f, v) =>
      var x, y, z :| Counted(x, h) && Counted(y, f) && Counted(z, v) && b == Ascii("H") + x + y + z;
      CountedExactly(x, h);
      CountedExactly(y, f);
      CountedExactly(z, v);
      assert Encode(r) == Ascii("H") + PutString(h) + PutString(f) + PutString(v);
  }
}
