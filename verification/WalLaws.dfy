/** What the write-ahead log holds, byte by byte, and what is replayed from it. */
module WalLaws {
  import opened Bytes
  import opened Wire
  import opened WalCodec
  import opened Wal

  // ----- the bytes of a record

  /** Strings one after the other, each behind its length. */
  ghost predicate AreCounted(b: seq<byte>, args: seq<seq<byte>>)
    decreases args
  {
    if args == [] then b == []
    else exists x, y :: Counted(x, args[0]) && AreCounted(y, args[1..]) && b == x + y
  }

  /** The length of the name in two bytes, the name, the number of arguments in two bytes, and the arguments, each
      behind its length in four bytes; numbers have their highest byte first. */
  ghost predicate IsRecord(b: seq<byte>, c: Command) {
    exists n, m, rest :: Spells16(n, |c.name|) && Spells16(m, |c.args|) && AreCounted(rest, c.args) &&
                         b == n + c.name + m + rest
  }

  lemma {:induction false} ArgsExactly(b: seq<byte>, args: seq<seq<byte>>)
    ensures AreCounted(b, args) <==> (forall a :: a in args ==> |a| < TWO32) && b == MarshalArgs(args)
    decreases args
  {
    hide PutString, Counted;
    if args != [] {
      var tail := args[1..];
      assert args == [args[0]] + tail;
      if AreCounted(b, args) {
        var x, y :| Counted(x, args[0]) && AreCounted(y, tail) && b == x + y;
        CountedExactly(x, args[0]);
        ArgsExactly(y, tail);
      }
      if (forall a :: a in args ==> |a| < TWO32) && b == MarshalArgs(args) {
        CountedExactly(PutString(args[0]), args[0]);
        ArgsExactly(MarshalArgs(tail), tail);
      }
    }
  }

  /** What is written for a command that fits is this form of it and no other. */
  lemma EncodedExactly(b: seq<byte>, c: Command)
    ensures IsRecord(b, c) <==> Fits(c) && b == MarshalCommand(c)
  {
    hide Put16, Spells16, AreCounted, MarshalArgs;
    var n, m, rest := Put16(|c.name|), Put16(|c.args|), MarshalArgs(c.args);
    if Fits(c) && b == MarshalCommand(c) {
      Spells16Exactly(n, |c.name|);
      Spells16Exactly(m, |c.args|);
      ArgsExactly(rest, c.args);
      assert b == n + c.name + m + rest;
    }
    if IsRecord(b, c) {
      var n', m', rest' :| Spells16(n', |c.name|) && Spells16(m', |c.args|) && AreCounted(rest', c.args) &&
                           b == n' + c.name + m' + rest';
      Spells16Exactly(n', |c.name|);
      Spells16Exactly(m', |c.args|);
      ArgsExactly(rest', c.args);
    }
  }

  // ----- what is replayed

  /** The commands that have a name. */
  ghost function Named(cs: seq<Command>): seq<Command> {
    if cs == [] then [] else (if cs[0].name == [] then [] else [cs[0]]) + Named(cs[1..])
  }

  lemma {:induction false} CapitalsPass(cs: seq<Command>)
    requires forall c, b :: c in cs && b in c.name ==> !(97 <= b <= 122)
    ensures PassedAll(cs) == Named(cs)
  {
    if cs != [] {
      CapitalsStay(cs[0].name);
      CapitalsPass(cs[1..]);
    }
  }

  lemma {:induction false} AllNamed(cs: seq<Command>)
    requires forall c :: c in cs ==> c.name != []
    ensures Named(cs) == cs
  {
    if cs != [] {
      AllNamed(cs[1..]);
      assert cs == [cs[0]] + cs[1..];
    }
  }

  /** Commands in capitals are replayed exactly as they were written. */
  lemma ReplayedAsWritten(cs: seq<Command>)
    requires AllFit(cs) && forall c, b :: c in cs && b in c.name ==> !(97 <= b <= 122)
    ensures ReplayOf(Log(cs)) == Finished(Named(cs))
    ensures (forall c :: c in cs ==> c.name != []) ==> ReplayOf(Log(cs)) == Finished(cs)
  {
    hide Fits, Log;
    ReplayWhole(cs);
    CapitalsPass(cs);
    if forall c :: c in cs ==> c.name != [] {
      AllNamed(cs);
    }
  }

  /** The commands written in a run all have names, in capitals. */
  ghost predicate Capitals(ops: seq<WalOp>) {
    forall i :: 0 <= i < |ops| && ops[i].Write? ==>
      ops[i].c.name != [] && forall b :: b in ops[i].c.name ==> !(97 <= b <= 122)
  }

  lemma {:induction false} WrittenPass(ops: seq<WalOp>)
    requires Capitals(ops)
    ensures forall c :: c in Written(ops) ==> c.name != [] && forall b :: b in c.name ==> !(97 <= b <= 122)
    ensures PassedAll(Written(ops)) == Written(ops)
  {
    hide PassedAll;
    if ops != [] {
      var init := ops[..|ops| - 1];
      assert forall i :: 0 <= i < |init| ==> init[i] == ops[i];
      WrittenPass(init);
    }
    CapitalsPass(Written(ops));
    AllNamed(Written(ops));
  }

  /** The n-th startup of a run is given what was written before the n-th restart. */
  lemma {:induction false} StartupsAre(ops: seq<WalOp>, i: nat)
    requires Capitals(ops) && i < |ops| && ops[i].Restart?
    ensures var n := |Startups(ops[..i])|; n < |Startups(ops)| && Startups(ops)[n] == Written(ops[..i])
    decreases |ops|
  {
    hide Written, PassedAll, Capitals;
    var init := ops[..|ops| - 1];
    CapitalsBefore(ops);
    if i == |ops| - 1 {
      WrittenPass(init);
    } else {
      assert init[..i] == ops[..i];
      StartupsAre(init, i);
    }
  }

  lemma CapitalsBefore(ops: seq<WalOp>)
    requires Capitals(ops) && ops != []
    ensures Capitals(ops[..|ops| - 1])
  {
    var init := ops[..|ops| - 1];
    assert forall i :: 0 <= i < |init| ==> init[i] == ops[i];
  }

  /** Through the code: however writes, flushes and restarts interleave, every startup is given the very commands
      written before it, name and arguments, in order. */
  method RunAsWritten(ops: seq<WalOp>) returns (startups: seq<seq<Command>>, cmds: seq<Command>)
    requires OpsFit(ops) && Capitals(ops)
    ensures cmds == Written(ops)
    ensures forall i :: 0 <= i < |ops| && ops[i].Restart? ==>
              |Startups(ops[..i])| < |startups| && startups[|Startups(ops[..i])|] == Written(ops[..i])
  {
    hide OpsFit, Capitals, Written, Startups, PassedAll;
    startups, cmds := LogAndReplay(ops);
    WrittenPass(ops);
    forall i | 0 <= i < |ops| && ops[i].Restart?
      ensures |Startups(ops[..i])| < |startups| && startups[|Startups(ops[..i])|] == Written(ops[..i])
    {
      StartupsAre(ops, i);
    }
  }
}
