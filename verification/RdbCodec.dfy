/** The snapshot file of the RDB persistence: how it is written and what reading it back replays. */
module RdbCodec {
  import opened Bytes
  import opened Tables
  import opened Wire
  import opened WalCodec

  const MAGIC: seq<byte> := [70, 76, 88, 67, 82, 68, 66]  // "FLXCRDB"
  const VERSION: nat := 1
  const SET: seq<byte> := [83, 69, 84]                    // "SET"
  const HSET: seq<byte> := [72, 83, 69, 84]               // "HSET"

  // ----- what a command does to the tables at startup

  function Load(t: Tables, c: Command): Tables {
    if c.name == SET && |c.args| >= 2 then SetString(t, c.args[0], c.args[1])
    else if c.name == HSET && |c.args| >= 3 then SetField(t, c.args[0], c.args[1], c.args[2])
    else t
  }

  function LoadAll(t: Tables, cs: seq<Command>): Tables
    decreases cs
  {
    if cs == [] then t else LoadAll(Load(t, cs[0]), cs[1..])
  }

  // ----- the file

  /** The order in which a map was ranged over. */
  type Pairs = seq<(Key, Value)>

  datatype Group = Group(hash: Key, fields: Pairs)

  datatype Listing = Listing(pairs: Pairs, groups: seq<Group>)

  function PutPairs(ps: Pairs): seq<byte> {
    if ps == [] then [] else PutString(ps[0].0) + PutString(ps[0].1) + PutPairs(ps[1..])
  }

  function PutGroup(g: Group): seq<byte> {
    PutString(g.hash) + Put32(|g.fields|) + PutPairs(g.fields)
  }

  function PutGroups(gs: seq<Group>): seq<byte> {
    if gs == [] then [] else PutGroup(gs[0]) + PutGroups(gs[1..])
  }

  function Snapshot(l: Listing): seq<byte> {
    MAGIC + Put32(VERSION) + Put32(|l.pairs|) + PutPairs(l.pairs) + Put32(|l.groups|) + PutGroups(l.groups)
  }

  // ----- reading: a read of some bytes gives what is left, padded with zeros, and fails only at the end

  function Pad(d: seq<byte>, n: nat): (b: seq<byte>)
    ensures |b| == n
  {
    if |d| >= n then d[..n] else d + seq(n - |d|, i => 0)
  }

  function Drop(d: seq<byte>, n: nat): (rest: seq<byte>)
    ensures |rest| <= |d| && (d != [] && n > 0 ==> |rest| < |d|)
  {
    if |d| >= n then d[n..] else []
  }

  datatype Read = Read(s: seq<byte>, rest: seq<byte>)

  function ReadString(d: seq<byte>): (r: Read)
    ensures |r.rest| <= |d|
  {
    if d == [] then Read([], d)
    else
      var len, tail := Get32(Pad(d, 4)), Drop(d, 4);
      if len == 0 || tail == [] then Read([], tail) else Read(Pad(tail, len), Drop(tail, len))
  }

  /** Commands passed on, and what is left of the file. */
  datatype Part = Part(cmds: seq<Command>, rest: seq<byte>)

  /** A pair of empty strings is skipped. */
  function SetCommand(k: Key, v: Value): seq<Command> {
    if k == [] && v == [] then [] else [Command(SET, [k, v])]
  }

  function ReplayPairs(d: seq<byte>, n: nat): Part
    decreases n
  {
    if n == 0 then Part([], d)
    else
      var k := ReadString(d);
      var v := ReadString(k.rest);
      var more := ReplayPairs(v.rest, n - 1);
      Part(SetCommand(k.s, v.s) + more.cmds, more.rest)
  }

  function ReplayFields(d: seq<byte>, h: Key, n: nat): Part
    decreases n
  {
    if n == 0 then Part([], d)
    else
      var f := ReadString(d);
      var v := ReadString(f.rest);
      var more := ReplayFields(v.rest, h, n - 1);
      Part([Command(HSET, [h, f.s, v.s])] + more.cmds, more.rest)
  }

  /** The commands passed on, and whether the replay ended without an error. */
  datatype Replayed = Replayed(cmds: seq<Command>, ok: bool)

  function Then(cs: seq<Command>, r: Replayed): Replayed {
    Replayed(cs + r.cmds, r.ok)
  }

  function ReplayGroups(d: seq<byte>, n: nat): Replayed
    decreases n
  {
    if n == 0 then Replayed([], true)
    else
      var h := ReadString(d);
      if h.rest == [] then Replayed([], false)
      else
        var fields := ReplayFields(Drop(h.rest, 4), h.s, Get32(Pad(h.rest, 4)));
        Then(fields.cmds, ReplayGroups(fields.rest, n - 1))
  }

  function ReplayTail(d: seq<byte>): Replayed {
    if d == [] then Replayed([], false) else ReplayGroups(Drop(d, 4), Get32(Pad(d, 4)))
  }

  function ReplayBody(d: seq<byte>): Replayed {
    if d == [] then Replayed([], false)
    else
      var strings := ReplayPairs(Drop(d, 4), Get32(Pad(d, 4)));
      Then(strings.cmds, ReplayTail(strings.rest))
  }

  /** Neither the magic nor the version is looked at. */
  function ReplayFile(file: seq<byte>): Replayed {
    if file == [] then Replayed([], true)
    else
      var d := Drop(file, |MAGIC|);
      if d == [] then Replayed([], false) else ReplayBody(Drop(d, 4))
  }

  // ----- what was written is read back

  lemma PadBack(b: seq<byte>, rest: seq<byte>)
    ensures Pad(b + rest, |b|) == b && Drop(b + rest, |b|) == rest
  {
  }

  lemma CountBack(n: nat, rest: seq<byte>)
    requires n < TWO32
    ensures Get32(Pad(Put32(n) + rest, 4)) == n && Drop(Put32(n) + rest, 4) == rest
    ensures Put32(n) + rest != []
  {
    hide Put32, Get32;
    PadBack(Put32(n), rest);
    Whole32(n, []);
    assert Put32(n) + [] == Put32(n);
  }

  lemma StringBack(s: seq<byte>, rest: seq<byte>)
    requires |s| < TWO32
    ensures ReadString(PutString(s) + rest) == Read(s, rest)
  {
    hide Put32, Get32, Pad, Drop;
    assert PutString(s) + rest == Put32(|s|) + (s + rest);
    CountBack(|s|, s + rest);
    PadBack(s, rest);
    if s == [] {
      assert s + rest == rest;
    }
  }

  ghost predicate ShortPairs(ps: Pairs) {
    forall p :: p in ps ==> |p.0| < TWO32 && |p.1| < TWO32
  }

  function SetCommands(ps: Pairs): seq<Command> {
    if ps == [] then [] else SetCommand(ps[0].0, ps[0].1) + SetCommands(ps[1..])
  }

  function FieldCommands(h: Key, ps: Pairs): seq<Command> {
    if ps == [] then [] else [Command(HSET, [h, ps[0].0, ps[0].1])] + FieldCommands(h, ps[1..])
  }

  function GroupCommands(gs: seq<Group>): seq<Command> {
    if gs == [] then [] else FieldCommands(gs[0].hash, gs[0].fields) + GroupCommands(gs[1..])
  }

  lemma PairBack(k: seq<byte>, v: seq<byte>, rest: seq<byte>)
    requires |k| < TWO32 && |v| < TWO32
    ensures ReadString(PutString(k) + PutString(v) + rest) == Read(k, PutString(v) + rest)
    ensures ReadString(PutString(v) + rest) == Read(v, rest)
  {
    hide PutString, ReadString;
    assert PutString(k) + PutString(v) + rest == PutString(k) + (PutString(v) + rest);
    StringBack(k, PutString(v) + rest);
    StringBack(v, rest);
  }

  lemma {:induction false} PairsBack(ps: Pairs, rest: seq<byte>)
    requires ShortPairs(ps)
    ensures ReplayPairs(PutPairs(ps) + rest, |ps|) == Part(SetCommands(ps), rest)
  {
    hide PutString, ReadString, SetCommand;
    if ps == [] {
      assert PutPairs(ps) + rest == rest;
    } else {
      var more := PutPairs(ps[1..]) + rest;
      assert ps[0] in ps;
      PairBack(ps[0].0, ps[0].1, more);
      assert PutPairs(ps) + rest == PutString(ps[0].0) + PutString(ps[0].1) + more;
      PairsBack(ps[1..], rest);
    }
  }

  lemma {:induction false} FieldsBack(h: Key, ps: Pairs, rest: seq<byte>)
    requires ShortPairs(ps)
    ensures ReplayFields(PutPairs(ps) + rest, h, |ps|) == Part(FieldCommands(h, ps), rest)
    decreases ps
  {
    hide PutString, ReadString;
    if ps == [] {
      assert PutPairs(ps) + rest == rest;
    } else {
      var more := PutPairs(ps[1..]) + rest;
      assert ps[0] in ps;
      PairBack(ps[0].0, ps[0].1, more);
      assert PutPairs(ps) + rest == PutString(ps[0].0) + PutString(ps[0].1) + more;
      FieldsBack(h, ps[1..], rest);
    }
  }

  ghost predicate ShortGroup(g: Group) {
    |g.hash| < TWO32 && |g.fields| < TWO32 && ShortPairs(g.fields)
  }

  lemma GroupBack(g: Group, rest: seq<byte>)
    requires ShortGroup(g)
    ensures var h := ReadString(PutGroup(g) + rest);
            && h.s == g.hash && h.rest != []
            && ReplayFields(Drop(h.rest, 4), h.s, Get32(Pad(h.rest, 4))) == Part(FieldCommands(g.hash, g.fields), rest)
  {
    hide PutString, ReadString, ReplayFields, PutPairs, Put32, Get32, Pad, Drop;
    var tail := PutPairs(g.fields) + rest;
    assert PutGroup(g) + rest == PutString(g.hash) + (Put32(|g.fields|) + tail);
    StringBack(g.hash, Put32(|g.fields|) + tail);
    CountBack(|g.fields|, tail);
    FieldsBack(g.hash, g.fields, rest);
  }

  lemma {:induction false} GroupsBack(gs: seq<Group>)
    requires forall g :: g in gs ==> ShortGroup(g)
    ensures ReplayGroups(PutGroups(gs), |gs|) == Replayed(GroupCommands(gs), true)
  {
    hide PutGroup, ReadString, ReplayFields, FieldCommands, Pad, Drop, Get32;
    if gs != [] {
      GroupBack(gs[0], PutGroups(gs[1..]));
      GroupsBack(gs[1..]);
    }
  }

  ghost predicate ShortListing(l: Listing) {
    |l.pairs| < TWO32 && ShortPairs(l.pairs) && |l.groups| < TWO32 && forall g :: g in l.groups ==> ShortGroup(g)
  }

  /** Reading a snapshot passes on one command for each pair listed in it, except a pair of empty strings. */
  lemma SnapshotBack(l: Listing)
    requires ShortListing(l)
    ensures ReplayFile(Snapshot(l)) == Replayed(SetCommands(l.pairs) + GroupCommands(l.groups), true)
  {
    hide Put32, Get32, Pad, Drop, PutPairs, PutGroups, ReplayPairs, ReplayGroups, SetCommands, GroupCommands;
    var tail := Put32(|l.groups|) + PutGroups(l.groups);
    var body := Put32(|l.pairs|) + (PutPairs(l.pairs) + tail);
    assert Snapshot(l) == MAGIC + (Put32(VERSION) + body);
    PadBack(MAGIC, Put32(VERSION) + body);
    CountBack(VERSION, body);
    CountBack(|l.pairs|, PutPairs(l.pairs) + tail);
    PairsBack(l.pairs, tail);
    CountBack(|l.groups|, PutGroups(l.groups));
    GroupsBack(l.groups);
  }
}
