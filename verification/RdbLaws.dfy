/** What a startup loads, read off the commands, and how a snapshot stands in its file, byte by byte. */
module RdbLaws {
  import opened Bytes
  import opened Lookups
  import opened Tables
  import opened Wire
  import opened WalCodec
  import opened RdbCodec
  import opened Rdb
  import LastWrites
  import Wal

  // ----- the last command that touches an entry decides

  predicate Sets(c: Command, k: Key) {
    c.name == Ascii("SET") && |c.args| >= 2 && c.args[0] == k
  }

  predicate HSets(c: Command, h: Key) {
    c.name == Ascii("HSET") && |c.args| >= 3 && c.args[0] == h
  }

  /** The last SET of the key gives it this value. */
  ghost predicate SetLast(cs: seq<Command>, k: Key, v: Value) {
    exists i :: 0 <= i < |cs| && Sets(cs[i], k) && cs[i].args[1] == v && forall j :: i < j < |cs| ==> !Sets(cs[j], k)
  }

  /** The last HSET of the field gives it this value. */
  ghost predicate HSetLast(cs: seq<Command>, h: Key, f: Key, v: Value) {
    exists i :: 0 <= i < |cs| && HSets(cs[i], h) && cs[i].args[1] == f && cs[i].args[2] == v &&
                forall j :: i < j < |cs| ==> !(HSets(cs[j], h) && cs[j].args[1] == f)
  }

  ghost predicate HashSet(cs: seq<Command>, h: Key) {
    exists c :: c in cs && HSets(c, h)
  }

  /** The tables hold exactly the last writes. */
  ghost predicate Holds(t: Tables, cs: seq<Command>) {
    && (forall k, v :: Find(t.strings, k) == Found(v) <==> SetLast(cs, k, v))
    && (forall h :: h in t.hashes <==> HashSet(cs, h))
    && (forall h, f, v :: h in t.hashes && Find(t.hashes[h], f) == Found(v) <==> HSetLast(cs, h, f, v))
  }

  lemma Names()
    ensures SET == Ascii("SET") && HSET == Ascii("HSET") && SET != HSET
  {
  }

  function EditOf(c: Command): LastWrites.Edit {
    if c.name == Ascii("SET") && |c.args| >= 2 then LastWrites.PutString(c.args[0], c.args[1])
    else if c.name == Ascii("HSET") && |c.args| >= 3 then LastWrites.PutField(c.args[0], c.args[1], c.args[2])
    else LastWrites.Pass
  }

  function Edits(cs: seq<Command>): (es: seq<LastWrites.Edit>)
    ensures |es| == |cs| && forall i :: 0 <= i < |cs| ==> es[i] == EditOf(cs[i])
  {
    seq(|cs|, i requires 0 <= i < |cs| => EditOf(cs[i]))
  }

  lemma LoadEdits(t: Tables, c: Command)
    ensures Load(t, c) == LastWrites.Edited(t, EditOf(c))
  {
    hide Ascii;
    Names();
  }

  lemma {:induction false} LoadedMeans(cs: seq<Command>)
    ensures LastWrites.Means(LoadAll(EMPTY, cs), Edits(cs))
  {
    hide LastWrites.Means, Load, EditOf;
    if cs == [] {
      LastWrites.NothingMeans();
    } else {
      var init, c := cs[..|cs| - 1], cs[|cs| - 1];
      LoadedMeans(init);
      LoadBoth(EMPTY, init, [c]);
      LoadOne(LoadAll(EMPTY, init), c);
      assert cs == init + [c];
      LoadEdits(LoadAll(EMPTY, init), c);
      LastWrites.MeansMore(LoadAll(EMPTY, init), Edits(init), EditOf(c));
      assert Edits(cs) == Edits(init) + [EditOf(c)];
    }
  }

  lemma EditFacts(c: Command, h: Key)
    ensures Sets(c, h) <==> EditOf(c).PutString? && EditOf(c).key == h
    ensures HSets(c, h) <==> EditOf(c).PutField? && EditOf(c).key == h
    ensures Sets(c, h) ==> |c.args| >= 2 && EditOf(c).value == c.args[1]
    ensures HSets(c, h) ==> |c.args| >= 3 && EditOf(c).field == c.args[1] && EditOf(c).value == c.args[2]
    ensures !EditOf(c).Erase?
  {
    hide Ascii;
    Names();
  }

  lemma SetLastIs(cs: seq<Command>, k: Key, v: Value)
    ensures SetLast(cs, k, v) <==> LastWrites.StringLast(Edits(cs), k, v)
  {
    hide EditOf, Sets;
    var es := Edits(cs);
    forall i | 0 <= i < |cs|
      ensures Sets(cs[i], k) <==> es[i].PutString? && es[i].key == k
      ensures Sets(cs[i], k) ==> |cs[i].args| >= 2 && es[i].value == cs[i].args[1]
      ensures es[i] != LastWrites.Erase(k)
    {
      EditFacts(cs[i], k);
    }
  }

  lemma HSetLastIs(cs: seq<Command>, h: Key, f: Key, v: Value)
    ensures HSetLast(cs, h, f, v) <==> LastWrites.FieldLast(Edits(cs), h, f, v)
  {
    hide EditOf, HSets;
    var es := Edits(cs);
    forall i | 0 <= i < |cs|
      ensures HSets(cs[i], h) <==> es[i].PutField? && es[i].key == h
      ensures HSets(cs[i], h) ==> |cs[i].args| >= 3 && es[i].field == cs[i].args[1] && es[i].value == cs[i].args[2]
      ensures es[i] != LastWrites.Erase(h)
    {
      EditFacts(cs[i], h);
    }
  }

  lemma HashSetIs(cs: seq<Command>, h: Key)
    ensures HashSet(cs, h) <==> LastWrites.HashLast(Edits(cs), h)
  {
    hide EditOf, HSets;
    var es := Edits(cs);
    forall i | 0 <= i < |cs|
      ensures (HSets(cs[i], h) <==> es[i].PutField? && es[i].key == h) && es[i] != LastWrites.Erase(h)
    {
      EditFacts(cs[i], h);
    }
  }

  /** A startup loads exactly the last writes. */
  lemma LoadedExactly(cs: seq<Command>)
    ensures Holds(LoadAll(EMPTY, cs), cs)
  {
    hide LoadAll, SetLast, HSetLast, HashSet, LastWrites.StringLast, LastWrites.FieldLast, LastWrites.HashLast;
    var t := LoadAll(EMPTY, cs);
    LoadedMeans(cs);
    forall k, v ensures Find(t.strings, k) == Found(v) <==> SetLast(cs, k, v) {
      SetLastIs(cs, k, v);
    }
    forall h ensures h in t.hashes <==> HashSet(cs, h) {
      HashSetIs(cs, h);
    }
    forall h, f, v ensures h in t.hashes && Find(t.hashes[h], f) == Found(v) <==> HSetLast(cs, h, f, v) {
      assert Find(FieldsOf(t, h), f) == Found(v) <==> LastWrites.FieldLast(Edits(cs), h, f, v);
      HSetLastIs(cs, h, f, v);
    }
  }

  /** Commands in capitals come back from the log as the last writes among them. */
  lemma LogHolds(cs: seq<Command>)
    requires forall c :: c in cs ==> UpperCase(c) && Fits(c)
    ensures Wal.ReplayOf(Wal.Log(cs)).Finished? && Holds(LoadAll(EMPTY, Wal.ReplayOf(Wal.Log(cs)).cmds), cs)
  {
    hide Holds, LoadAll, Fits;
    Wal.ReplayWhole(cs);
    LogLoads(EMPTY, cs);
    LoadedExactly(cs);
  }

  /** And from a snapshot of them, apart from an empty value under the empty key. */
  lemma SnapshotHolds(cs: seq<Command>, l: Listing)
    requires var t := LoadAll(EMPTY, cs); IsListing(l, t) && ShortTables(t)
    ensures var t := LoadAll(EMPTY, ReplayFile(Snapshot(l)).cmds);
            && (forall k, v :: Find(t.strings, k) == Found(v) <==> SetLast(cs, k, v) && (k != [] || v != []))
            && (forall h :: h in t.hashes <==> HashSet(cs, h))
            && (forall h, f, v :: h in t.hashes && Find(t.hashes[h], f) == Found(v) <==> HSetLast(cs, h, f, v))
  {
    hide LoadAll, IsListing, ShortTables, Snapshot, ReplayFile, SetLast, HSetLast, HashSet;
    var w := LoadAll(EMPTY, cs);
    var t := LoadAll(EMPTY, ReplayFile(Snapshot(l)).cmds);
    SnapshotLoads(cs, l);
    LoadedExactly(cs);
    forall k, v ensures Find(t.strings, k) == Found(v) <==> SetLast(cs, k, v) && (k != [] || v != []) {
      assert Find(w.strings, k) == Found(v) <==> SetLast(cs, k, v);
    }
  }

  // ----- the bytes of a snapshot

  ghost predicate ArePairs(b: seq<byte>, ps: Pairs)
    decreases ps
  {
    if ps == [] then b == []
    else exists x, y, z :: Counted(x, ps[0].0) && Counted(y, ps[0].1) && ArePairs(z, ps[1..]) && b == x + y + z
  }

  ghost predicate AreGroups(b: seq<byte>, gs: seq<Group>)
    decreases gs
  {
    if gs == [] then b == []
    else exists x, n, y, z :: Counted(x, gs[0].hash) && Spells32(n, |gs[0].fields|) && ArePairs(y, gs[0].fields) &&
                              AreGroups(z, gs[1..]) && b == x + n + y + z
  }

  /** "FLXCRDB", the version 1, the number of strings and each with its value, the number of hashes and each with the
      number of its fields and these with their values; numbers take four bytes, the highest first. */
  ghost predicate IsSnapshot(b: seq<byte>, l: Listing) {
    exists one, n, x, m, y :: Spells32(one, 1) && Spells32(n, |l.pairs|) && ArePairs(x, l.pairs) &&
                              Spells32(m, |l.groups|) && AreGroups(y, l.groups) &&
                              b == Ascii("FLXCRDB") + one + n + x + m + y
  }

  lemma {:induction false} PairsWritten(ps: Pairs)
    requires ShortPairs(ps)
    ensures ArePairs(PutPairs(ps), ps)
    decreases ps
  {
    hide PutString, Counted;
    if ps != [] {
      assert ps[0] in ps;
      PutCounted(ps[0].0);
      PutCounted(ps[0].1);
      PairsWritten(ps[1..]);
    }
  }

  lemma {:induction false} GroupsWritten(gs: seq<Group>)
    requires forall g :: g in gs ==> ShortGroup(g)
    ensures AreGroups(PutGroups(gs), gs)
    decreases gs
  {
    hide PutString, Counted, Put32, Spells32, PutPairs, ArePairs;
    if gs != [] {
      var g := gs[0];
      assert ShortGroup(g);
      PutCounted(g.hash);
      Spells32Exactly(Put32(|g.fields|), |g.fields|);
      PairsWritten(g.fields);
      GroupsWritten(gs[1..]);
      assert PutGroups(gs) == PutString(g.hash) + Put32(|g.fields|) + PutPairs(g.fields) + PutGroups(gs[1..]);
    }
  }

  /** What is written is that form. */
  lemma SnapshotForm(l: Listing)
    requires ShortListing(l)
    ensures IsSnapshot(Snapshot(l), l)
  {
    hide Put32, Spells32, PutPairs, ArePairs, PutGroups, AreGroups, Ascii;
    Magic();
    Spells32Exactly(Put32(1), 1);
    Spells32Exactly(Put32(|l.pairs|), |l.pairs|);
    Spells32Exactly(Put32(|l.groups|), |l.groups|);
    PairsWritten(l.pairs);
    GroupsWritten(l.groups);
    assert Snapshot(l) == Ascii("FLXCRDB") + Put32(1) + Put32(|l.pairs|) + PutPairs(l.pairs) + Put32(|l.groups|) +
                          PutGroups(l.groups);
  }

  lemma Magic()
    ensures MAGIC == Ascii("FLXCRDB")
  {
  }
}
