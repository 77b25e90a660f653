/** RDB persistence: the commands kept as tables, the snapshot of them, and the startup from it. */
module Rdb {
  import opened Bytes
  import opened Tables
  import opened Wire
  import opened WalCodec
  import opened RdbCodec
  import Wal

  // ----- listings of the tables

  /** The pairs are the map's entries, each once, in some order. */
  ghost predicate Lists(ps: Pairs, m: map<Key, Value>)
    decreases ps
  {
    if ps == [] then m == map[]
    else ps[0].0 in m && m[ps[0].0] == ps[0].1 && Lists(ps[1..], m - {ps[0].0})
  }

  ghost predicate ListsGroups(gs: seq<Group>, m: map<Key, Fields>)
    decreases gs
  {
    if gs == [] then m == map[]
    else gs[0].hash in m && Lists(gs[0].fields, m[gs[0].hash]) && ListsGroups(gs[1..], m - {gs[0].hash})
  }

  /** Any order Go may range over the maps in. */
  ghost predicate IsListing(l: Listing, t: Tables) {
    Lists(l.pairs, t.strings) && ListsGroups(l.groups, t.hashes)
  }

  ghost predicate ShortMap(m: map<Key, Value>) {
    |m| < TWO32 && forall k :: k in m ==> |k| < TWO32 && |m[k]| < TWO32
  }

  /** Every length the snapshot stores fits its 32 bits. */
  ghost predicate ShortTables(t: Tables) {
    && ShortMap(t.strings) && |t.hashes| < TWO32
    && forall h :: h in t.hashes ==> |h| < TWO32 && ShortMap(t.hashes[h])
  }

  lemma RemoveOne<T>(m: map<Key, T>, k: Key)
    requires k in m
    ensures |m - {k}| == |m| - 1
  {
    assert m.Keys == (m - {k}).Keys + {k};
  }

  lemma {:induction false} ListedShort(ps: Pairs, m: map<Key, Value>)
    requires Lists(ps, m) && forall k :: k in m ==> |k| < TWO32 && |m[k]| < TWO32
    ensures |ps| == |m| && ShortPairs(ps)
    decreases ps
  {
    if ps != [] {
      RemoveOne(m, ps[0].0);
      ListedShort(ps[1..], m - {ps[0].0});
      assert forall p :: p in ps ==> p == ps[0] || p in ps[1..];
    }
  }

  lemma {:induction false} ListedShortGroups(gs: seq<Group>, m: map<Key, Fields>)
    requires ListsGroups(gs, m) && forall h :: h in m ==> |h| < TWO32 && ShortMap(m[h])
    ensures |gs| == |m| && forall g :: g in gs ==> ShortGroup(g)
    decreases gs
  {
    hide Lists;
    if gs != [] {
      var g := gs[0];
      RemoveOne(m, g.hash);
      ListedShort(g.fields, m[g.hash]);
      ListedShortGroups(gs[1..], m - {g.hash});
      assert forall x :: x in gs ==> x == g || x in gs[1..];
    }
  }

  lemma ListingShort(l: Listing, t: Tables)
    requires IsListing(l, t) && ShortTables(t)
    ensures ShortListing(l)
  {
    ListedShort(l.pairs, t.strings);
    ListedShortGroups(l.groups, t.hashes);
  }

  // ----- loading what a listing replays

  lemma {:induction false} LoadBoth(t: Tables, a: seq<Command>, b: seq<Command>)
    ensures LoadAll(t, a + b) == LoadAll(LoadAll(t, a), b)
    decreases a
  {
    if a == [] {
      assert a + b == b;
    } else {
      assert (a + b)[1..] == a[1..] + b;
      LoadBoth(Load(t, a[0]), a[1..], b);
    }
  }

  lemma LoadOne(t: Tables, c: Command)
    ensures LoadAll(t, [c]) == Load(t, c)
  {
    assert [c][1..] == [];
  }

  ghost predicate Blank(m: map<Key, Value>) {
    [] in m && m[[]] == []
  }

  /** A map without the pair of empty strings. */
  ghost function Kept(m: map<Key, Value>): map<Key, Value> {
    if Blank(m) then m - {[]} else m
  }

  lemma KeptStep(s: map<Key, Value>, m: map<Key, Value>, k: Key)
    requires k in m
    ensures k == [] && m[k] == [] ==> s + Kept(m - {k}) == s + Kept(m)
    ensures !(k == [] && m[k] == []) ==> s[k := m[k]] + Kept(m - {k}) == s + Kept(m)
  {
  }

  lemma {:induction false} LoadStrings(t: Tables, ps: Pairs, m: map<Key, Value>)
    requires Lists(ps, m)
    ensures LoadAll(t, SetCommands(ps)) == t.(strings := t.strings + Kept(m))
    decreases ps
  {
    if ps == [] {
      assert t.strings + map[] == t.strings;
    } else {
      hide Kept, LoadAll;
      var (k, v) := ps[0];
      KeptStep(t.strings, m, k);
      LoadBoth(t, SetCommand(k, v), SetCommands(ps[1..]));
      LoadSet(t, k, v);
      LoadStrings(LoadAll(t, SetCommand(k, v)), ps[1..], m - {k});
    }
  }

  lemma LoadSet(t: Tables, k: Key, v: Value)
    ensures LoadAll(t, SetCommand(k, v)) == if k == [] && v == [] then t else SetString(t, k, v)
  {
    if k != [] || v != [] {
      LoadOne(t, Command(SET, [k, v]));
    }
  }

  ghost function AddFields(t: Tables, h: Key, m: map<Key, Value>): Tables {
    if m == map[] then t else t.(hashes := t.hashes[h := FieldsOf(t, h) + m])
  }

  lemma FieldStep(t: Tables, h: Key, m: map<Key, Value>, k: Key)
    requires k in m
    ensures AddFields(SetField(t, h, k, m[k]), h, m - {k}) == AddFields(t, h, m)
  {
    var f := FieldsOf(t, h);
    assert f[k := m[k]] + (m - {k}) == f + m;
    if m - {k} == map[] {
      assert f[k := m[k]] == f + m;
    }
    var a, b := AddFields(SetField(t, h, k, m[k]), h, m - {k}).hashes, AddFields(t, h, m).hashes;
    assert a == b;
  }

  lemma {:induction false} LoadFields(t: Tables, h: Key, ps: Pairs, m: map<Key, Value>)
    requires Lists(ps, m)
    ensures LoadAll(t, FieldCommands(h, ps)) == AddFields(t, h, m)
    decreases ps
  {
    if ps != [] {
      hide LoadAll, AddFields, SetField;
      var (k, v) := ps[0];
      var c := Command(HSET, [h, k, v]);
      LoadOne(t, c);
      LoadBoth(t, [c], FieldCommands(h, ps[1..]));
      LoadFields(SetField(t, h, k, v), h, ps[1..], m - {k});
      FieldStep(t, h, m, k);
    }
  }

  lemma GroupStep(t: Tables, m: map<Key, Fields>, h: Key)
    requires h in m && m[h] != map[] && t.hashes.Keys !! m.Keys
    ensures var u := AddFields(t, h, m[h]);
            u.hashes.Keys !! (m - {h}).Keys && u.hashes + (m - {h}) == t.hashes + m && u.strings == t.strings
  {
    assert map[] + m[h] == m[h];
  }

  lemma {:induction false} LoadGroups(t: Tables, gs: seq<Group>, m: map<Key, Fields>)
    requires ListsGroups(gs, m) && (forall h :: h in m ==> m[h] != map[]) && t.hashes.Keys !! m.Keys
    ensures LoadAll(t, GroupCommands(gs)) == t.(hashes := t.hashes + m)
    decreases gs
  {
    if gs == [] {
      assert t.hashes + map[] == t.hashes;
    } else {
      hide LoadAll, FieldCommands, Lists, AddFields;
      var g := gs[0];
      LoadFields(t, g.hash, g.fields, m[g.hash]);
      GroupStep(t, m, g.hash);
      LoadBoth(t, FieldCommands(g.hash, g.fields), GroupCommands(gs[1..]));
      LoadGroups(AddFields(t, g.hash, m[g.hash]), gs[1..], m - {g.hash});
    }
  }

  // ----- snapshot and log start up alike

  ghost predicate NoEmptyHash(t: Tables) {
    forall h :: h in t.hashes ==> t.hashes[h] != map[]
  }

  lemma LoadKeepsFields(t: Tables, c: Command)
    requires NoEmptyHash(t)
    ensures NoEmptyHash(Load(t, c))
  {
    var u := Load(t, c);
    forall h | h in u.hashes ensures u.hashes[h] != map[] {
      if h !in t.hashes || u.hashes[h] != t.hashes[h] {
        assert c.args[1] in u.hashes[h];
      }
    }
  }

  lemma {:induction false} LoadAllKeepsFields(t: Tables, cs: seq<Command>)
    requires NoEmptyHash(t)
    ensures NoEmptyHash(LoadAll(t, cs))
    decreases cs
  {
    hide NoEmptyHash, Load;
    if cs != [] {
      LoadKeepsFields(t, cs[0]);
      LoadAllKeepsFields(Load(t, cs[0]), cs[1..]);
    }
  }

  /** A snapshot of any commands, ranged over in any order, starts up with everything but a pair of empty strings. */
  lemma SnapshotLoads(cs: seq<Command>, l: Listing)
    requires var t := LoadAll(EMPTY, cs); IsListing(l, t) && ShortTables(t)
    ensures var t := LoadAll(EMPTY, cs);
            && ReplayFile(Snapshot(l)).ok
            && LoadAll(EMPTY, ReplayFile(Snapshot(l)).cmds) == t.(strings := Kept(t.strings))
  {
    hide LoadAll, Lists, ListsGroups, ShortListing, Kept, SetCommands, GroupCommands, Snapshot, ReplayFile;
    var t := LoadAll(EMPTY, cs);
    ListingShort(l, t);
    SnapshotBack(l);
    LoadAllKeepsFields(EMPTY, cs);
    ListingLoads(l, t);
  }

  lemma ListingLoads(l: Listing, t: Tables)
    requires IsListing(l, t) && NoEmptyHash(t)
    ensures LoadAll(EMPTY, SetCommands(l.pairs) + GroupCommands(l.groups)) == t.(strings := Kept(t.strings))
  {
    hide LoadAll, Lists, ListsGroups, Kept, SetCommands, GroupCommands;
    LoadBoth(EMPTY, SetCommands(l.pairs), GroupCommands(l.groups));
    LoadStrings(EMPTY, l.pairs, t.strings);
    LoadGroups(EMPTY.(strings := EMPTY.strings + Kept(t.strings)), l.groups, t.hashes);
    assert EMPTY.strings + Kept(t.strings) == Kept(t.strings);
    assert EMPTY.hashes + t.hashes == t.hashes;
  }

  /** No byte of the name is a small letter. */
  ghost predicate UpperCase(c: Command) {
    forall b :: b in c.name ==> !(97 <= b <= 122)
  }

  lemma {:induction false} LogLoads(t: Tables, cs: seq<Command>)
    requires forall c :: c in cs ==> UpperCase(c)
    ensures LoadAll(t, Wal.PassedAll(cs)) == LoadAll(t, cs)
    decreases cs
  {
    if cs != [] {
      var c := cs[0];
      assert UpperCase(c);
      CapitalsStay(c.name);
      LoadBoth(t, Wal.Passed(c), Wal.PassedAll(cs[1..]));
      LoadOne(t, c);
      LogLoads(Load(t, c), cs[1..]);
    }
  }

  /** Starting up from a snapshot of the commands and from their write-ahead log gives the same tables,
      if and only if the commands leave no empty value under the empty key. */
  lemma SnapshotEqualsLog(cs: seq<Command>, l: Listing)
    requires forall c :: c in cs ==> UpperCase(c) && Fits(c)
    requires var t := LoadAll(EMPTY, cs); IsListing(l, t) && ShortTables(t)
    ensures Wal.ReplayOf(Wal.Log(cs)).Finished?
    ensures LoadAll(EMPTY, ReplayFile(Snapshot(l)).cmds) == LoadAll(EMPTY, Wal.ReplayOf(Wal.Log(cs)).cmds)
       <==> !Blank(LoadAll(EMPTY, cs).strings)
  {
    hide LoadAll, IsListing, ShortTables, Snapshot, ReplayFile, Fits;
    var t := LoadAll(EMPTY, cs);
    SnapshotLoads(cs, l);
    Wal.ReplayWhole(cs);
    LogLoads(EMPTY, cs);
    if Blank(t.strings) {
      assert [] !in Kept(t.strings) && [] in t.strings;
    }
  }

  // ----- the snapshotter

  class RDB {
    var strings: map<Key, Value>
    var hashes: map<Key, Fields>
    var file: seq<byte>

    function Now(): Tables
      reads this
    {
      Tables(strings, hashes)
    }

    constructor (content: seq<byte>)
      ensures Now() == EMPTY && file == content
    {
      strings, hashes, file := map[], map[], content;
    }

    method Write(c: Command)
      modifies this`strings, this`hashes
      ensures Now() == Load(old(Now()), c)
    {
      if c.name == SET {
        if |c.args| >= 2 {
          strings := strings[c.args[0] := c.args[1]];
        }
      } else if c.name == HSET {
        if |c.args| >= 3 {
          var m := if c.args[0] in hashes then hashes[c.args[0]] else map[];
          hashes := hashes[c.args[0] := m[c.args[1] := c.args[2]]];
        }
      }
    }

    /** `writeSnapshot`: the file is replaced by the tables, in whatever order the maps are ranged over. */
    method WriteSnapshot() returns (ghost l: Listing)
      modifies this`file
      ensures IsListing(l, Now()) && file == Snapshot(l)
    {
      hide Put32, PutPairs, PutGroups, Lists, ListsGroups;
      file := MAGIC + Put32(VERSION) + Put32(|strings|);
      var b;
      ghost var ps;
      b, ps := PutMap(strings);
      ListedCount(ps, strings);
      file := file + b + Put32(|hashes|);
      var hb;
      ghost var gs;
      hb, gs := PutHashes(hashes);
      ListedCountGroups(gs, hashes);
      file := file + hb;
      l := Listing(ps, gs);
    }

    /** The commands of the snapshot, in the order they are passed on. */
    method Replay() returns (cmds: seq<Command>, ok: bool)
      ensures Replayed(cmds, ok) == ReplayFile(file)
    {
      cmds, ok := [], false;
      if file == [] {
        return [], true;
      }
      var d := Drop(file, |MAGIC|);
      if d == [] {
        return;
      }
      d := Drop(d, 4);
      if d == [] {
        return;
      }
      cmds, d := ReadPairs(Drop(d, 4), Get32(Pad(d, 4)));
      if d == [] {
        assert cmds + [] == cmds;
        return;
      }
      var more;
      more, ok := ReadGroups(Drop(d, 4), Get32(Pad(d, 4)));
      cmds := cmds + more;
    }
  }

  /** The pairs of a map, in an arbitrary order. */
  method PutMap(m: map<Key, Value>) returns (b: seq<byte>, ghost ps: Pairs)
    ensures Lists(ps, m) && b == PutPairs(ps)
  {
    hide PutString, PutPairs, Ranged;
    b, ps := [], [];
    RangeStart(m);
    var todo := m;
    ghost var done: map<Key, Value> := map[];
    assert PutPairs([]) == [] by { PutNoPairs(); }
    while todo != map[]
      invariant Ranged(m, todo, done)
      invariant Lists(ps, done) && b == PutPairs(ps)
      decreases |todo|
    {
      var k :| k in todo;
      RangeStep(m, todo, done, k);
      PairAdded(ps, done, k, todo[k]);
      PutPairsExtends(ps, k, todo[k]);
      b := b + PutString(k) + PutString(todo[k]);
      ps, done := ps + [(k, todo[k])], done[k := todo[k]];
      todo := todo - {k};
    }
    RangeEnd(m, done);
  }

  /** The hashes of a map and their fields, in an arbitrary order. */
  method PutHashes(m: map<Key, Fields>) returns (b: seq<byte>, ghost gs: seq<Group>)
    ensures ListsGroups(gs, m) && b == PutGroups(gs)
  {
    hide PutString, PutPairs, Put32, Lists, Ranged;
    b, gs := [], [];
    RangeStart(m);
    var todo := m;
    ghost var done: map<Key, Fields> := map[];
    while todo != map[]
      invariant Ranged(m, todo, done)
      invariant ListsGroups(gs, done) && b == PutGroups(gs)
      decreases |todo|
    {
      var h :| h in todo;
      RangeStep(m, todo, done, h);
      var fields;
      ghost var fs;
      fields, fs := PutMap(todo[h]);
      ListedCount(fs, todo[h]);
      ghost var g := Group(h, fs);
      GroupAdded(gs, done, g, todo[h]);
      PutGroupsExtends(gs, g);
      b := b + (PutString(h) + Put32(|todo[h]|) + fields);
      gs, done := gs + [g], done[h := todo[h]];
      todo := todo - {h};
    }
    RangeEnd(m, done);
  }

  lemma PutNoPairs()
    ensures PutPairs([]) == []
  {
  }

  lemma {:induction false} PairAdded(ps: Pairs, m: map<Key, Value>, k: Key, v: Value)
    requires Lists(ps, m) && k !in m
    ensures Lists(ps + [(k, v)], m[k := v])
    decreases ps
  {
    var qs := ps + [(k, v)];
    if ps == [] {
      assert qs[1..] == [] && m[k := v] - {k} == map[];
    } else {
      var x := ps[0].0;
      PairAdded(ps[1..], m - {x}, k, v);
      assert qs[1..] == ps[1..] + [(k, v)] && m[k := v] - {x} == (m - {x})[k := v];
    }
  }

  lemma {:induction false} GroupAdded(gs: seq<Group>, m: map<Key, Fields>, g: Group, fields: Fields)
    requires ListsGroups(gs, m) && g.hash !in m && Lists(g.fields, fields)
    ensures ListsGroups(gs + [g], m[g.hash := fields])
    decreases gs
  {
    hide Lists;
    var qs := gs + [g];
    if gs == [] {
      assert qs[1..] == [] && m[g.hash := fields] - {g.hash} == map[];
    } else {
      var x := gs[0].hash;
      GroupAdded(gs[1..], m - {x}, g, fields);
      assert qs[1..] == gs[1..] + [g] && m[g.hash := fields] - {x} == (m - {x})[g.hash := fields];
    }
  }

  lemma {:induction false} PutPairsExtends(ps: Pairs, k: Key, v: Value)
    ensures PutPairs(ps + [(k, v)]) == PutPairs(ps) + PutString(k) + PutString(v)
    decreases ps
  {
    hide PutString;
    var qs := ps + [(k, v)];
    if ps == [] {
      assert qs[1..] == [];
    } else {
      assert qs[1..] == ps[1..] + [(k, v)];
      PutPairsExtends(ps[1..], k, v);
    }
  }

  lemma {:induction false} PutGroupsExtends(gs: seq<Group>, g: Group)
    ensures PutGroups(gs + [g]) == PutGroups(gs) + PutGroup(g)
    decreases gs
  {
    hide PutGroup;
    var qs := gs + [g];
    if gs == [] {
      assert qs[1..] == [];
    } else {
      assert qs[1..] == gs[1..] + [g];
      PutGroupsExtends(gs[1..], g);
    }
  }

  lemma {:induction false} ListedCount(ps: Pairs, m: map<Key, Value>)
    requires Lists(ps, m)
    ensures |ps| == |m|
    decreases ps
  {
    if ps != [] {
      RemoveOne(m, ps[0].0);
      ListedCount(ps[1..], m - {ps[0].0});
    }
  }

  lemma {:induction false} ListedCountGroups(gs: seq<Group>, m: map<Key, Fields>)
    requires ListsGroups(gs, m)
    ensures |gs| == |m|
    decreases gs
  {
    hide Lists;
    if gs != [] {
      RemoveOne(m, gs[0].hash);
      ListedCountGroups(gs[1..], m - {gs[0].hash});
    }
  }

  method ReadPairs(data: seq<byte>, n: nat) returns (cmds: seq<Command>, d: seq<byte>)
    ensures Part(cmds, d) == ReplayPairs(data, n)
  {
    hide ReadString;
    cmds, d := [], data;
    for i := 0 to n
      invariant ReplayPairs(data, n) == Part(cmds + ReplayPairs(d, n - i).cmds, ReplayPairs(d, n - i).rest)
    {
      var k := ReadString(d);
      var v := ReadString(k.rest);
      ghost var more := ReplayPairs(v.rest, n - i - 1);
      assert cmds + (SetCommand(k.s, v.s) + more.cmds) == cmds + SetCommand(k.s, v.s) + more.cmds;
      d := v.rest;
      if !(k.s == [] && v.s == []) {
        cmds := cmds + [Command(SET, [k.s, v.s])];
      }
    }
  }

  method ReadFields(data: seq<byte>, h: Key, n: nat) returns (cmds: seq<Command>, d: seq<byte>)
    ensures Part(cmds, d) == ReplayFields(data, h, n)
  {
    hide ReadString;
    cmds, d := [], data;
    for i := 0 to n
      invariant ReplayFields(data, h, n) == Part(cmds + ReplayFields(d, h, n - i).cmds, ReplayFields(d, h, n - i).rest)
    {
      var f := ReadString(d);
      var v := ReadString(f.rest);
      var c := Command(HSET, [h, f.s, v.s]);
      ghost var more := ReplayFields(v.rest, h, n - i - 1);
      assert cmds + ([c] + more.cmds) == cmds + [c] + more.cmds;
      d, cmds := v.rest, cmds + [c];
    }
  }

  method ReadGroups(data: seq<byte>, n: nat) returns (cmds: seq<Command>, ok: bool)
    ensures Replayed(cmds, ok) == ReplayGroups(data, n)
  {
    hide ReadString, ReplayFields, Get32, Pad, Drop;
    cmds, ok := [], true;
    var d := data;
    for i := 0 to n
      invariant ok && ReplayGroups(data, n) == Then(cmds, ReplayGroups(d, n - i))
    {
      var h := ReadString(d);
      if h.rest == [] {
        assert cmds + [] == cmds;
        return cmds, false;
      }
      var fields;
      fields, d := ReadFields(Drop(h.rest, 4), h.s, Get32(Pad(h.rest, 4)));
      ghost var more := ReplayGroups(d, n - i - 1);
      assert cmds + (fields + more.cmds) == cmds + fields + more.cmds;
      cmds := cmds + fields;
    }
  }

  /** The loop at startup. */
  method LoadCommands(cmds: seq<Command>) returns (t: Tables)
    ensures t == LoadAll(EMPTY, cmds)
  {
    hide Load;
    t := EMPTY;
    for i := 0 to |cmds|
      invariant LoadAll(t, cmds[i..]) == LoadAll(EMPTY, cmds)
    {
      assert cmds[i..][1..] == cmds[i + 1..];
      t := Load(t, cmds[i]);
    }
  }

  /** Writing commands, taking a snapshot and starting up from it. */
  method SaveAndLoad(cs: seq<Command>) returns (t: Tables)
    requires ShortTables(LoadAll(EMPTY, cs))
    ensures var u := LoadAll(EMPTY, cs); t == u.(strings := Kept(u.strings))
  {
    hide Load, LoadAll, IsListing, Snapshot, ReplayFile, ShortTables, Kept;
    var r := new RDB([]);
    assert LoadAll(EMPTY, cs[..0]) == EMPTY by { LoadNone(EMPTY, cs[..0]); }
    for i := 0 to |cs|
      invariant fresh(r) && r.Now() == LoadAll(EMPTY, cs[..i])
    {
      LoadBoth(EMPTY, cs[..i], [cs[i]]);
      LoadOne(LoadAll(EMPTY, cs[..i]), cs[i]);
      assert cs[..i + 1] == cs[..i] + [cs[i]];
      r.Write(cs[i]);
    }
    assert cs[..|cs|] == cs;
    ghost var l := r.WriteSnapshot();
    SnapshotLoads(cs, l);
    var cmds, ok := r.Replay();
    t := LoadCommands(cmds);
  }

  lemma LoadNone(t: Tables, cs: seq<Command>)
    requires cs == []
    ensures LoadAll(t, cs) == t
  {
  }
}
