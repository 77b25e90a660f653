/** The write-ahead log: commands are buffered, flushed to the file in batches, and replayed from it. */
module Wal {
  import opened Bytes
  import opened Wire
  import opened WalCodec

  const BATCH: nat := 1000

  // ----- what a replay of a file does

  /** `Hangs` is a replay that reaches data it cannot decode: it gets the data back unchanged, for ever. */
  datatype Outcome = Finished(cmds: seq<Command>) | Hangs(cmds: seq<Command>, at: seq<byte>)

  function Before(cs: seq<Command>, o: Outcome): Outcome {
    o.(cmds := cs + o.cmds)
  }

  /** Commands without a name are not passed on. */
  function Passed(c: Command): seq<Command> {
    if c.name != [] then [c] else []
  }

  function ReplayOf(data: seq<byte>): Outcome
    decreases |data|
  {
    if data == [] then Finished([])
    else
      var d := UnmarshalCommand(data);
      if |d.rest| == |data| then Hangs([], data) else Before(Passed(d.cmd), ReplayOf(d.rest))
  }

  /** The bytes of a sequence of commands. */
  ghost function Log(cs: seq<Command>): seq<byte> {
    if cs == [] then [] else MarshalCommand(cs[0]) + Log(cs[1..])
  }

  /** The commands a replay of them passes on. */
  ghost function PassedAll(cs: seq<Command>): seq<Command> {
    if cs == [] then [] else Passed(UpperCommand(cs[0])) + PassedAll(cs[1..])
  }

  lemma BeforeBoth(a: seq<Command>, b: seq<Command>, o: Outcome)
    ensures Before(a, Before(b, o)) == Before(a + b, o)
  {
    assert a + (b + o.cmds) == a + b + o.cmds;
  }

  /** Whole records are replayed in order, whatever follows them. */
  lemma {:induction false} ReplayPrefix(cs: seq<Command>, rest: seq<byte>)
    requires forall c :: c in cs ==> Fits(c)
    ensures ReplayOf(Log(cs) + rest) == Before(PassedAll(cs), ReplayOf(rest))
  {
    hide UnmarshalCommand, MarshalCommand;
    if cs == [] {
      assert [] + rest == rest && [] + ReplayOf(rest).cmds == ReplayOf(rest).cmds;
    } else {
      var tail := Log(cs[1..]) + rest;
      assert Log(cs) + rest == MarshalCommand(cs[0]) + tail;
      RoundTrip(cs[0], tail);
      ReplayPrefix(cs[1..], rest);
      BeforeBoth(Passed(UpperCommand(cs[0])), PassedAll(cs[1..]), ReplayOf(rest));
    }
  }

  /** A log of whole records is replayed to its end. */
  lemma ReplayWhole(cs: seq<Command>)
    requires forall c :: c in cs ==> Fits(c)
    ensures ReplayOf(Log(cs)) == Finished(PassedAll(cs))
  {
    ReplayPrefix(cs, []);
    assert Log(cs) + [] == Log(cs) && PassedAll(cs) + [] == PassedAll(cs);
  }

  ghost predicate AllFit(cs: seq<Command>) {
    forall c :: c in cs ==> Fits(c)
  }

  /** A file on which a replay ends is made of whole records. */
  lemma {:induction false} ReplayedWhole(data: seq<byte>) returns (cs: seq<Command>)
    requires ReplayOf(data).Finished?
    ensures AllFit(cs) && data == Log(cs)
    decreases |data|
  {
    hide UnmarshalCommand, MarshalCommand, Fits;
    cs := [];
    if data != [] {
      var d := UnmarshalCommand(data);
      RecordAgain(data);
      var more := ReplayedWhole(d.rest);
      cs := [Recorded(data)] + more;
      assert cs[1..] == more;
    }
  }

  /** Replay comes back if and only if the file is a log of whole records. */
  lemma ReplayEndsExactly(data: seq<byte>)
    ensures ReplayOf(data).Finished? <==> exists cs :: AllFit(cs) && data == Log(cs)
  {
    if ReplayOf(data).Finished? {
      var cs := ReplayedWhole(data);
    }
    forall cs | AllFit(cs) && data == Log(cs) ensures ReplayOf(data).Finished? {
      ReplayWhole(cs);
    }
  }

  /** A log whose last record was cut short passes on the whole records and then hangs on the cut one. */
  lemma ReplayTorn(cs: seq<Command>, c: Command, cut: nat)
    requires (forall x :: x in cs ==> Fits(x)) && Fits(c) && 0 < cut < |MarshalCommand(c)|
    ensures ReplayOf(Log(cs) + MarshalCommand(c)[..cut]) == Hangs(PassedAll(cs), MarshalCommand(c)[..cut])
  {
    hide UnmarshalCommand, MarshalCommand;
    var torn := MarshalCommand(c)[..cut];
    TornRecord(c, cut);
    ReplayPrefix(cs, torn);
    assert PassedAll(cs) + [] == PassedAll(cs);
  }

  lemma {:induction false} LogExtends(cs: seq<Command>, c: Command)
    ensures Log(cs + [c]) == Log(cs) + MarshalCommand(c)
  {
    hide MarshalCommand;
    if cs == [] {
      assert [c][1..] == [] && Log([c]) == MarshalCommand(c) + Log([]);
    } else {
      assert (cs + [c])[1..] == cs[1..] + [c];
      LogExtends(cs[1..], c);
    }
  }

  // ----- the file

  /** Writing at a position of a file overwrites what was there. */
  function WriteAt(file: seq<byte>, pos: nat, b: seq<byte>): seq<byte>
    requires pos <= |file|
  {
    file[..pos] + b + (if pos + |b| < |file| then file[pos + |b|..] else [])
  }

  /** A write appends if and only if it starts at the end of the file. */
  lemma AppendsExactly(file: seq<byte>, pos: nat, b: seq<byte>)
    requires pos <= |file| && b != []
    ensures WriteAt(file, pos, b) == file + b <==> pos == |file|
  {
    if pos < |file| {
      assert |WriteAt(file, pos, b)| < |file + b|;
    }
  }

  /** `marshalCommand`, appending argument by argument. */
  method Encode(c: Command) returns (b: seq<byte>)
    ensures b == MarshalCommand(c)
  {
    hide Put16, PutString;
    b := Put16(|c.name|) + c.name + Put16(|c.args|);
    for i := 0 to |c.args|
      invariant b + MarshalArgs(c.args[i..]) == MarshalCommand(c)
    {
      assert c.args[i..][1..] == c.args[i + 1..];
      assert b + MarshalArgs(c.args[i..]) == b + PutString(c.args[i]) + MarshalArgs(c.args[i + 1..]);
      b := b + PutString(c.args[i]);
    }
  }

  /** `unmarshalCommand`, advancing an offset through the data. */
  method Decode(data: seq<byte>) returns (r: Decoded)
    ensures r == UnmarshalCommand(data)
  {
    if |data| < 4 {
      return Decoded(NOTHING, data);
    }
    var len := Get16(data);
    var off := 2;
    if len > |data| - off {
      return Decoded(NOTHING, data);
    }
    var name := data[off..off + len];
    off := off + len;
    if off + 2 > |data| {
      return Decoded(NOTHING, data);
    }
    var count := Get16(data[off..]);
    off := off + 2;
    var args;
    args, off := DecodeArgs(data, off, count);
    if off > |data| {
      return Decoded(NOTHING, data);
    }
    return Decoded(Command(Upper(name), args), data[off..]);
  }

  /** Taking a string at an offset. */
  lemma TakeAt(data: seq<byte>, off: nat)
    requires off <= |data|
    ensures off + 4 > |data| ==> TakeString(data[off..]) == Short
    ensures off + 4 <= |data| ==>
              var len := Get32(data[off..]);
              TakeString(data[off..]) ==
              if off + 4 + len > |data| then Short else Taken(data[off + 4..off + 4 + len], data[off + 4 + len..])
  {
    if off + 4 <= |data| {
      var len := Get32(data[off..]);
      if off + 4 + len <= |data| {
        assert data[off..][4..4 + len] == data[off + 4..off + 4 + len];
        assert data[off..][4 + len..] == data[off + 4 + len..];
      }
    }
  }

  /** The argument loop; an offset past the end says that the data ran out. */
  method DecodeArgs(data: seq<byte>, start: nat, count: nat) returns (args: seq<seq<byte>>, off: nat)
    requires start <= |data|
    ensures off <= |data| ==> UnmarshalArgs(count, data[start..]) == Args(args, data[off..])
    ensures off > |data| ==> UnmarshalArgs(count, data[start..]) == Torn
  {
    hide TakeString, Get32;
    args, off := [], start;
    ArgsBeforeNone(UnmarshalArgs(count, data[start..]));
    for i := 0 to count
      invariant |args| == i && start <= off <= |data|
      invariant ArgsBefore(args, UnmarshalArgs(count - i, data[off..])) == UnmarshalArgs(count, data[start..])
    {
      TakeAt(data, off);
      if off + 4 > |data| {
        return args, |data| + 1;
      }
      var len := Get32(data[off..]);
      if off + 4 + len > |data| {
        return args, |data| + 1;
      }
      ArgsBeforeMore(args, data[off + 4..off + 4 + len], UnmarshalArgs(count - i - 1, data[off + 4 + len..]));
      args := args + [data[off + 4..off + 4 + len]];
      off := off + 4 + len;
    }
    assert args + [] == args;
  }

  ghost function ArgsBefore(args: seq<seq<byte>>, r: Args): Args {
    if r.Args? then Args(args + r.args, r.rest) else Torn
  }

  lemma ArgsBeforeNone(r: Args)
    ensures ArgsBefore([], r) == r
  {
    assert r.Args? ==> [] + r.args == r.args;
  }

  lemma ArgsBeforeMore(args: seq<seq<byte>>, a: seq<byte>, r: Args)
    ensures ArgsBefore(args + [a], r) == ArgsBefore(args, ArgsBefore([a], r))
  {
    if r.Args? {
      assert args + [a] + r.args == args + ([a] + r.args);
    }
  }

  class WAL {
    var file: seq<byte>
    var pos: nat
    var buf: seq<byte>

    /** The write position is inside the file. */
    ghost predicate Valid()
      reads this
    {
      pos <= |file|
    }

    /** Writes go to the end of the file. */
    ghost predicate Appending()
      reads this
    {
      pos == |file|
    }

    /** Everything logged so far, flushed or not. */
    ghost function Logged(): seq<byte>
      reads this
    {
      file + buf
    }

    /** Opens an existing file at its beginning. */
    constructor (content: seq<byte>)
      ensures Valid() && file == content && pos == 0 && buf == []
    {
      file, pos, buf := content, 0, [];
    }

    method Flush()
      requires Valid()
      modifies this
      ensures Valid() && buf == []
      ensures old(buf) == [] ==> file == old(file) && pos == old(pos)
      ensures old(buf) != [] ==> file == WriteAt(old(file), old(pos), old(buf)) && pos == old(pos) + |old(buf)|
      ensures old(Appending()) ==> Appending() && Logged() == old(Logged())
    {
      if |buf| == 0 {
        return;
      }
      file, pos := WriteAt(file, pos, buf), pos + |buf|;
      buf := [];
    }

    method Write(c: Command)
      requires Valid()
      modifies this
      ensures Valid()
      ensures var all := old(buf) + MarshalCommand(c);
              if |all| >= BATCH then buf == [] && file == WriteAt(old(file), old(pos), all) && pos == old(pos) + |all|
              else buf == all && file == old(file) && pos == old(pos)
      ensures old(Appending()) ==> Appending() && Logged() == old(Logged()) + MarshalCommand(c)
    {
      var data := Encode(c);
      buf := buf + data;
      assert file + buf == old(file + buf) + data;
      if |buf| >= BATCH {
        Flush();
      }
    }

    /** `Close` writes out what is left in the buffer. */
    method Close()
      requires Valid()
      modifies this
      ensures Valid() && buf == [] && file == WriteAt0(old(file), old(pos), old(buf))
      ensures old(Appending()) ==> file == old(Logged())
    {
      if |buf| > 0 {
        file, pos := WriteAt(file, pos, buf), pos + |buf|;
        buf := [];
      }
    }

    /** Flushes, decodes the whole file from the start, and leaves the write position at its end.
        Where the source would not come back, `hung` is set and the log is left as it is. */
    method Replay() returns (cmds: seq<Command>, hung: bool)
      requires Valid()
      modifies this
      ensures buf == [] && file == WriteAt0(old(file), old(pos), old(buf))
      ensures var o := ReplayOf(file); o.cmds == cmds && hung == o.Hangs?
      ensures !hung ==> Valid() && Appending()
      ensures old(Appending()) ==> file == old(Logged())
    {
      Flush();
      var data := file;
      pos := 0;
      cmds, hung := [], false;
      assert [] + ReplayOf(data).cmds == ReplayOf(data).cmds;
      while |data| > 0
        invariant Before(cmds, ReplayOf(data)) == ReplayOf(file) && file == old(WriteAt0(file, pos, buf)) && buf == []
        decreases |data|
      {
        var d := Decode(data);
        if |d.rest| == |data| {
          assert cmds + [] == cmds;
          return cmds, true;
        }
        BeforeBoth(cmds, Passed(d.cmd), ReplayOf(d.rest));
        assert cmds + [] == cmds;
        if d.cmd.name != [] {
          cmds := cmds + [d.cmd];
        }
        data := d.rest;
      }
      assert cmds + [] == cmds;
      pos := |file|;
    }
  }

  /** A flush of a possibly empty buffer. */
  ghost function WriteAt0(file: seq<byte>, pos: nat, b: seq<byte>): seq<byte>
    requires pos <= |file|
  {
    if b == [] then file else WriteAt(file, pos, b)
  }

  // ----- whole runs

  /** A restart closes the log, opens its file again and replays it. */
  datatype WalOp = Write(c: Command) | Flush | Restart

  /** The commands written in a run. */
  function Written(ops: seq<WalOp>): seq<Command> {
    if ops == [] then []
    else
      var last := ops[|ops| - 1];
      Written(ops[..|ops| - 1]) + if last.Write? then [last.c] else []
  }

  /** What each restart of a run is to replay: everything written before it. */
  ghost function Startups(ops: seq<WalOp>): seq<seq<Command>> {
    if ops == [] then []
    else
      var before := ops[..|ops| - 1];
      Startups(before) + if ops[|ops| - 1].Restart? then [PassedAll(Written(before))] else []
  }

  ghost predicate OpsFit(ops: seq<WalOp>) {
    forall i :: 0 <= i < |ops| && ops[i].Write? ==> Fits(ops[i].c)
  }

  lemma {:induction false} WrittenFit(ops: seq<WalOp>)
    requires OpsFit(ops)
    ensures AllFit(Written(ops))
  {
    hide Fits;
    if ops != [] {
      assert OpsFit(ops[..|ops| - 1]) by {
        assert forall i :: 0 <= i < |ops| - 1 ==> ops[..|ops| - 1][i] == ops[i];
      }
      WrittenFit(ops[..|ops| - 1]);
    }
  }

  /** `Close`, then opening the same file and replaying it: the log goes on where it was. */
  method Reopened(w: WAL, ghost cs: seq<Command>) returns (v: WAL, cmds: seq<Command>)
    requires w.Valid() && w.Appending() && w.Logged() == Log(cs) && AllFit(cs)
    modifies w
    ensures fresh(v) && v.Valid() && v.Appending() && v.Logged() == Log(cs) && cmds == PassedAll(cs)
  {
    w.Close();
    v := new WAL(w.file);
    ReplayWhole(cs);
    var hung;
    cmds, hung := v.Replay();
  }

  /** However writes, flushes and restarts interleave, every restart replays exactly the commands written
      before it, in order, and so does a replay at the end. */
  method LogAndReplay(ops: seq<WalOp>) returns (startups: seq<seq<Command>>, cmds: seq<Command>)
    requires OpsFit(ops)
    ensures startups == Startups(ops) && cmds == PassedAll(Written(ops))
  {
    hide Fits, Log, PassedAll, MarshalCommand;
    var w := new WAL([]);
    startups := [];
    assert Log([]) == [] by { LogNone(); }
    for i := 0 to |ops|
      invariant fresh(w) && w.Valid() && w.Appending() && w.Logged() == Log(Written(ops[..i]))
      invariant startups == Startups(ops[..i])
    {
      assert ops[..i + 1][..i] == ops[..i];
      ghost var before := Written(ops[..i]);
      match ops[i] {
        case Write(c) =>
          LogExtends(before, c);
          w.Write(c);
        case Flush =>
          assert before + [] == before;
          w.Flush();
        case Restart =>
          assert before + [] == before;
          assert OpsFit(ops[..i]);
          WrittenFit(ops[..i]);
          w, cmds := Reopened(w, before);
          startups := startups + [cmds];
      }
    }
    assert ops[..|ops|] == ops;
    WrittenFit(ops);
    ReplayWhole(Written(ops));
    var hung;
    cmds, hung := w.Replay();
  }

  lemma LogNone()
    ensures Log([]) == []
  {
  }
}
