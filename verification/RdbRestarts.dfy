/** Several sessions on one snapshot file: a restart fills the store from the snapshot, but not the snapshotter. */
module RdbRestarts {
  import opened Bytes
  import opened Tables
  import opened WalCodec
  import opened RdbCodec
  import opened Rdb

  lemma LoadIsOver(t: Tables, c: Command)
    ensures Load(t, c) == Over(t, Load(EMPTY, c))
  {
    hide OverHashes;
    assert t.strings + map[] == t.strings;
    assert OverHashes(t.hashes, map[]) == t.hashes by { OverNothing(t); }
    if c.name == HSET && |c.args| >= 3 {
      var f: Fields := map[];
      OverField(t.hashes, c.args[0], c.args[1], c.args[2]);
      assert f[c.args[1] := c.args[2]] == map[c.args[1] := c.args[2]];
    } else if c.name == SET && |c.args| >= 2 {
      assert t.strings[c.args[0] := c.args[1]] == t.strings + map[c.args[0] := c.args[1]];
    }
  }

  /** Loading commands lays what they say over what is there. */
  lemma {:induction false} LoadAllIsOver(t: Tables, cs: seq<Command>)
    ensures LoadAll(t, cs) == Over(t, LoadAll(EMPTY, cs))
    decreases cs
  {
    hide Load, Over;
    if cs == [] {
      OverNothing(t);
    } else {
      var first, rest := Load(EMPTY, cs[0]), LoadAll(EMPTY, cs[1..]);
      LoadIsOver(t, cs[0]);
      LoadAllIsOver(Load(t, cs[0]), cs[1..]);
      LoadAllIsOver(first, cs[1..]);
      OverAssociates(t, first, rest);
    }
  }

  /** A session starts with tables `t` and executes commands; its snapshot is taken, in any order, and loaded at
      the next start. Nothing is lost if and only if the commands themselves write everything that was there
      before, and leave no empty value under the empty key. */
  lemma SessionKeepsExactly(t: Tables, cs: seq<Command>, l: Listing)
    requires var w := LoadAll(EMPTY, cs); IsListing(l, w) && ShortTables(w)
    ensures var w := LoadAll(EMPTY, cs);
            LoadAll(EMPTY, ReplayFile(Snapshot(l)).cmds) == LoadAll(t, cs) <==> Covers(w, t) && !Blank(w.strings)
  {
    hide LoadAll, IsListing, ShortTables, ReplayFile, Snapshot, Covers;
    var w := LoadAll(EMPTY, cs);
    SnapshotLoads(cs, l);
    LoadAllIsOver(t, cs);
    CoversExactly(t, w);
    if Blank(w.strings) {
      assert [] in Over(t, w).strings && [] !in Kept(w.strings);
    }
  }

  /** A session without commands loses everything. */
  lemma IdleSessionLoses(t: Tables)
    requires t != EMPTY
    ensures LoadAll(EMPTY, ReplayFile(Snapshot(Listing([], []))).cmds) != LoadAll(t, [])
  {
    hide ReplayFile, Snapshot;
    assert LoadAll(EMPTY, []) == EMPTY;
    SessionKeepsExactly(t, [], Listing([], []));
    CoveredByNothing(t);
  }

  lemma CoveredByNothing(t: Tables)
    ensures Covers(EMPTY, t) <==> t == EMPTY
  {
    if Covers(EMPTY, t) {
      assert t.strings == map[] && t.hashes == map[];
    }
  }

  // ----- the same through the code

  /** One session: the store is filled from the snapshot, commands go to the store and to the snapshotter, and a
      snapshot is taken. */
  method Session(content: seq<byte>, cs: seq<Command>) returns (live: Tables, file: seq<byte>, ghost l: Listing)
    ensures live == LoadAll(LoadAll(EMPTY, ReplayFile(content).cmds), cs)
    ensures IsListing(l, LoadAll(EMPTY, cs)) && file == Snapshot(l)
  {
    hide Load, LoadAll, ReplayFile, Snapshot, IsListing;
    var r := new RDB(content);
    var cmds, ok := r.Replay();
    live := LoadCommands(cmds);
    ghost var start := live;
    LoadNone(start, cs[..0]);
    LoadNone(EMPTY, cs[..0]);
    for i := 0 to |cs|
      invariant fresh(r) && r.Now() == LoadAll(EMPTY, cs[..i]) && live == LoadAll(start, cs[..i])
    {
      assert cs[..i + 1] == cs[..i] + [cs[i]];
      LoadMore(EMPTY, cs[..i], cs[i]);
      LoadMore(start, cs[..i], cs[i]);
      live := Load(live, cs[i]);
      r.Write(cs[i]);
    }
    assert cs[..|cs|] == cs;
    l := r.WriteSnapshot();
    file := r.file;
  }

  lemma LoadMore(t: Tables, cs: seq<Command>, c: Command)
    ensures LoadAll(t, cs + [c]) == Load(LoadAll(t, cs), c)
  {
    LoadBoth(t, cs, [c]);
    LoadOne(LoadAll(t, cs), c);
  }

  /** Two sessions and a third start: it finds what the second session wrote, and nothing older. */
  method TwoSessions(first: seq<Command>, second: seq<Command>) returns (live: Tables, restarted: Tables)
    requires ShortTables(LoadAll(EMPTY, first)) && ShortTables(LoadAll(EMPTY, second))
    ensures var t := LoadAll(EMPTY, first);
            var u := t.(strings := Kept(t.strings));
            var w := LoadAll(EMPTY, second);
            live == LoadAll(u, second) && (restarted == live <==> Covers(w, u) && !Blank(w.strings))
  {
    hide Load, LoadAll, ReplayFile, Snapshot, IsListing, ShortTables, Kept, Blank, Covers;
    var file;
    ghost var l, l';
    live, file, l := Session([], first);
    SnapshotLoads(first, l);
    live, file, l' := Session(file, second);
    SessionKeepsExactly(LoadAll(EMPTY, ReplayFile(Snapshot(l)).cmds), second, l');
    var r := new RDB(file);
    var cmds, ok := r.Replay();
    restarted := LoadCommands(cmds);
  }
}
