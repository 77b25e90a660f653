/** The records of the write-ahead log and their decoder. */
module WalCodec {
  import opened Bytes
  import opened Wire

  datatype Command = Command(name: seq<byte>, args: seq<seq<byte>>)

  const NOTHING := Command([], [])

  /** Upper case, for ASCII letters. */
  function UpperByte(b: byte): byte {
    if 97 <= b <= 122 then b - 32 else b
  }

  function Upper(s: seq<byte>): (u: seq<byte>)
    ensures |u| == |s|
  {
    seq(|s|, i requires 0 <= i < |s| => UpperByte(s[i]))
  }

  function UpperCommand(c: Command): Command {
    Command(Upper(c.name), c.args)
  }

  /** A small letter becomes the capital at the same place of the alphabet; every other byte stays. */
  lemma UpperExactly(s: seq<byte>, i: nat)
    requires i < |s|
    ensures Code('a') <= s[i] <= Code('z') ==> Upper(s)[i] as int - Code('A') as int == s[i] as int - Code('a') as int
    ensures !(Code('a') <= s[i] <= Code('z')) ==> Upper(s)[i] == s[i]
  {
  }

  lemma CapitalsStay(s: seq<byte>)
    requires forall b :: b in s ==> !(97 <= b <= 122)
    ensures Upper(s) == s
  {
    forall i | 0 <= i < |s| ensures Upper(s)[i] == s[i] {
      assert s[i] in s && Code('a') == 97 && Code('z') == 122;
      UpperExactly(s, i);
    }
  }

  // ----- encoding

  function MarshalArgs(args: seq<seq<byte>>): seq<byte> {
    if args == [] then [] else PutString(args[0]) + MarshalArgs(args[1..])
  }

  function MarshalCommand(c: Command): (b: seq<byte>)
    ensures |b| >= 4
  {
    Put16(|c.name|) + c.name + Put16(|c.args|) + MarshalArgs(c.args)
  }

  // ----- decoding

  datatype Args = Torn | Args(args: seq<seq<byte>>, rest: seq<byte>)

  /** `n` length-prefixed strings, or nothing if the data ends before them. */
  function UnmarshalArgs(n: nat, data: seq<byte>): (r: Args)
    ensures r.Args? ==> |r.rest| <= |data| && |r.args| == n
  {
    if n == 0 then Args([], data)
    else match TakeString(data)
      case Short => Torn
      case Taken(a, tail) =>
        match UnmarshalArgs(n - 1, tail)
        case Args(args, rest) => Args([a] + args, rest)
        case Torn => Torn
  }

  datatype Head = NoHead | Head(name: seq<byte>, count: nat, rest: seq<byte>)

  /** The name and the number of arguments. */
  function UnmarshalHead(data: seq<byte>): (r: Head)
    ensures r.Head? ==> |r.rest| < |data| && |r.name| < TWO16 && r.count < TWO16
  {
    if |data| < 4 then NoHead
    else
      var len := Get16(data);
      if len > |data| - 2 || 2 + len + 2 > |data| then NoHead
      else Head(data[2..2 + len], Get16(data[2 + len..]), data[2 + len + 2..])
  }

  datatype Decoded = Decoded(cmd: Command, rest: seq<byte>)

  /** The first command of the data and what follows it; data that ends inside the command is returned unchanged. */
  function UnmarshalCommand(data: seq<byte>): (r: Decoded)
    ensures |r.rest| <= |data|
    ensures |r.rest| == |data| ==> r == Decoded(NOTHING, data)
  {
    match UnmarshalHead(data)
    case NoHead => Decoded(NOTHING, data)
    case Head(name, count, tail) =>
      match UnmarshalArgs(count, tail)
      case Args(args, rest) => Decoded(Command(Upper(name), args), rest)
      case Torn => Decoded(NOTHING, data)
  }

  // ----- round trip

  /** Name and argument counts fit their length fields. */
  ghost predicate Fits(c: Command) {
    |c.name| < TWO16 && |c.args| < TWO16 && forall a :: a in c.args ==> |a| < TWO32
  }

  /** One more argument in front. */
  lemma ArgsStep(a: seq<byte>, args: seq<seq<byte>>, data: seq<byte>, rest: seq<byte>)
    requires |a| < TWO32 && UnmarshalArgs(|args|, data) == Args(args, rest)
    ensures UnmarshalArgs(1 + |args|, PutString(a) + data) == Args([a] + args, rest)
  {
    hide PutString, TakeString;
    TakeBack(a, data);
  }

  lemma {:induction false} ArgsBack(args: seq<seq<byte>>, rest: seq<byte>)
    requires forall a :: a in args ==> |a| < TWO32
    ensures UnmarshalArgs(|args|, MarshalArgs(args) + rest) == Args(args, rest)
  {
    if args == [] {
      assert MarshalArgs(args) + rest == rest;
    } else {
      hide PutString, UnmarshalArgs;
      var tail := MarshalArgs(args[1..]) + rest;
      assert MarshalArgs(args) + rest == PutString(args[0]) + tail;
      ArgsBack(args[1..], rest);
      ArgsStep(args[0], args[1..], tail, rest);
      assert args == [args[0]] + args[1..];
    }
  }

  /** The part of a record before its arguments. */
  function MarshalHead(c: Command): seq<byte> {
    Put16(|c.name|) + c.name + Put16(|c.args|)
  }

  lemma HeadBack(c: Command, rest: seq<byte>)
    requires |c.name| < TWO16 && |c.args| < TWO16
    ensures UnmarshalHead(MarshalHead(c) + rest) == Head(c.name, |c.args|, rest)
  {
    hide Put16, Get16;
    var len := |c.name|;
    var tail := Put16(|c.args|) + rest;
    assert MarshalHead(c) + rest == Put16(len) + (c.name + tail);
    Whole16(len, c.name + tail);
    Slices(Put16(len), c.name, tail);
    Whole16(|c.args|, rest);
    assert tail[2..] == rest;
  }

  /** Decoding inverts encoding, up to the case of the name. */
  lemma RoundTrip(c: Command, rest: seq<byte>)
    requires Fits(c)
    ensures UnmarshalCommand(MarshalCommand(c) + rest) == Decoded(UpperCommand(c), rest)
  {
    hide UnmarshalHead, UnmarshalArgs;
    assert MarshalCommand(c) + rest == MarshalHead(c) + (MarshalArgs(c.args) + rest);
    HeadBack(c, MarshalArgs(c.args) + rest);
    ArgsBack(c.args, rest);
  }

  lemma {:induction false} ArgsFit(n: nat, data: seq<byte>)
    ensures var r := UnmarshalArgs(n, data); r.Args? ==> forall a :: a in r.args ==> |a| < TWO32
  {
    if n > 0 && TakeString(data).Taken? {
      ArgsFit(n - 1, TakeString(data).rest);
    }
  }

  /** A command survives the log if and only if its name, its arguments and their number fit the length fields. */
  lemma SurvivesExactly(c: Command)
    ensures (forall rest :: UnmarshalCommand(MarshalCommand(c) + rest) == Decoded(UpperCommand(c), rest)) <==> Fits(c)
  {
    if Fits(c) {
      forall rest
        ensures UnmarshalCommand(MarshalCommand(c) + rest) == Decoded(UpperCommand(c), rest)
      {
        RoundTrip(c, rest);
      }
    } else {
      hide UnmarshalHead, UnmarshalArgs;
      var data := MarshalCommand(c) + [];
      var r, head := UnmarshalCommand(data), UnmarshalHead(data);
      if head.Head? {
        ArgsFit(head.count, head.rest);
      }
      assert Fits(r.cmd);
      assert r != Decoded(UpperCommand(c), []);
    }
  }

  // ----- what decodes is a record

  lemma {:induction false} ArgsAgain(n: nat, data: seq<byte>)
    requires UnmarshalArgs(n, data).Args?
    ensures var r := UnmarshalArgs(n, data); data == MarshalArgs(r.args) + r.rest
  {
    hide PutString, TakeString;
    var r := UnmarshalArgs(n, data);
    if n > 0 {
      var first := TakeString(data);
      TakeAgain(data);
      ArgsAgain(n - 1, first.rest);
      var more := UnmarshalArgs(n - 1, first.rest);
      assert r.args[1..] == more.args;
      assert data == PutString(first.s) + (MarshalArgs(more.args) + more.rest);
    }
  }

  lemma HeadAgain(data: seq<byte>)
    requires UnmarshalHead(data).Head?
    ensures var r := UnmarshalHead(data); data == Put16(|r.name|) + r.name + Put16(r.count) + r.rest
  {
    hide Put16, Get16;
    var len := Get16(data);
    Again16(data);
    Again16(data[2 + len..]);
    assert data == data[..2] + data[2..2 + len] + data[2 + len..][..2] + data[2 + len + 2..];
  }

  /** The command whose record the data starts with, its name as it was written. */
  ghost function Recorded(data: seq<byte>): Command
    requires UnmarshalHead(data).Head? && UnmarshalArgs(UnmarshalHead(data).count, UnmarshalHead(data).rest).Args?
  {
    var head := UnmarshalHead(data);
    Command(head.name, UnmarshalArgs(head.count, head.rest).args)
  }

  /** Data from which a command is decoded starts with a record of it. */
  lemma RecordAgain(data: seq<byte>)
    requires |UnmarshalCommand(data).rest| < |data|
    ensures UnmarshalHead(data).Head? && UnmarshalArgs(UnmarshalHead(data).count, UnmarshalHead(data).rest).Args?
    ensures Fits(Recorded(data)) && data == MarshalCommand(Recorded(data)) + UnmarshalCommand(data).rest
  {
    hide UnmarshalHead, UnmarshalArgs, MarshalArgs;
    var head := UnmarshalHead(data);
    HeadAgain(data);
    ArgsAgain(head.count, head.rest);
    ArgsFit(head.count, head.rest);
  }

  // ----- torn tails

  lemma {:induction false} ArgsTorn(args: seq<seq<byte>>, cut: nat)
    requires (forall a :: a in args ==> |a| < TWO32) && cut < |MarshalArgs(args)|
    ensures UnmarshalArgs(|args|, MarshalArgs(args)[..cut]) == Torn
  {
    hide PutString, TakeString;
    var a, tail := args[0], MarshalArgs(args[1..]);
    if cut < 4 + |a| {
      assert MarshalArgs(args)[..cut] == PutString(a)[..cut];
      TakeTorn(a, cut);
    } else {
      assert MarshalArgs(args)[..cut] == PutString(a) + tail[..cut - 4 - |a|];
      TakeBack(a, tail[..cut - 4 - |a|]);
      ArgsTorn(args[1..], cut - 4 - |a|);
    }
  }

  lemma HeadTorn(c: Command, cut: nat)
    requires |c.name| < TWO16 && cut < |MarshalHead(c)|
    ensures UnmarshalHead(MarshalHead(c)[..cut]) == NoHead
  {
    hide Put16, Get16;
    var data := MarshalHead(c)[..cut];
    if cut >= 4 {
      assert data == Put16(|c.name|) + data[2..];
      Whole16(|c.name|, data[2..]);
    }
  }

  /** Every strict prefix of a record decodes to nothing and is returned unchanged. */
  lemma TornRecord(c: Command, cut: nat)
    requires Fits(c) && cut < |MarshalCommand(c)|
    ensures UnmarshalCommand(MarshalCommand(c)[..cut]) == Decoded(NOTHING, MarshalCommand(c)[..cut])
  {
    hide UnmarshalHead, UnmarshalArgs;
    var head, args := MarshalHead(c), MarshalArgs(c.args);
    if cut < |head| {
      assert MarshalCommand(c)[..cut] == head[..cut];
      HeadTorn(c, cut);
    } else {
      assert MarshalCommand(c)[..cut] == head + args[..cut - |head|];
      HeadBack(c, args[..cut - |head|]);
      ArgsTorn(c.args, cut - |head|);
    }
  }
}
