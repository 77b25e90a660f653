/** The protocol reader: consumes a byte stream, byte by byte and value by value. */
module RespReader {
  import opened Bytes
  import opened Decimal
  import opened Resp

  lemma {:induction false} LineEnds(input: seq<byte>, i: nat)
    requires i + 1 < |input| && input[i] == CR && CR !in input[..i]
    ensures ParseLine(input) == Ok(input[..i], input[i + 2..])
  {
    if i > 0 {
      assert input[0] in input[..i];
      assert input[1..][..i - 1] == input[1..i];
      assert forall b :: b in input[1..i] ==> b in input[..i];
      LineEnds(input[1..], i - 1);
      assert [input[0]] + input[1..i] == input[..i];
    }
  }

  lemma {:induction false} LineNeverEnds(input: seq<byte>)
    requires forall i :: 0 <= i < |input| - 1 ==> input[i] != CR
    ensures ParseLine(input) == End
  {
    if |input| >= 2 {
      LineNeverEnds(input[1..]);
    }
  }

  class Reader {
    /** What has not been read yet. */
    var input: seq<byte>

    constructor (input: seq<byte>)
      ensures this.input == input
    {
      this.input := input;
    }

    method ReadByte() returns (ok: bool, b: byte)
      modifies this
      ensures ok == (old(input) != [])
      ensures ok ==> b == old(input)[0] && input == old(input)[1..]
      ensures !ok ==> input == []
    {
      if input == [] {
        return false, 0;
      }
      ok, b := true, input[0];
      input := input[1..];
    }

    method ReadLine() returns (r: Parsed<seq<byte>>)
      modifies this
      ensures r == ParseLine(old(input))
      ensures input == r.Left() && (r.Ok? || r.End?)
    {
      ghost var start := input;
      var line: seq<byte> := [];
      while true
        invariant line + input == start
        invariant forall i :: 0 <= i < |line| - 1 ==> line[i] != CR
        decreases |input|
      {
        var ok, b := ReadByte();
        if !ok {
          assert line == start;
          LineNeverEnds(start);
          return End;
        }
        line := line + [b];
        if |line| >= 2 && line[|line| - 2] == CR {
          var n := |line| - 2;
          assert start[..n] == line[..n] && start[n] == CR && start[n + 2..] == input;
          LineEnds(start, n);
          return Ok(line[..n], input);
        }
      }
    }

    method ReadNumber() returns (r: Parsed<Int64>)
      modifies this
      ensures r == ParseNumber(old(input))
      ensures input == r.Left()
    {
      var line := ReadLine();
      match line
      case Ok(text, rest) =>
        var i := ParseInt(text);
        return if i.Number? then Ok(i.n, rest) else Bad(rest);
      case _ => return End;
    }

    /** Fills a buffer from the stream as far as it is buffered; missing bytes stay zero. */
    method Fill(n: nat, buffered: nat) returns (bytes: seq<byte>)
      modifies this
      ensures var have := Had(n, old(input), buffered);
              bytes == old(input)[..have] + seq(n - have, _ => 0) && input == old(input)[have..]
    {
      var have := Had(n, input, buffered);
      bytes := input[..have] + seq(n - have, _ => 0);
      input := input[have..];
    }

    method ReadBulk(buffered: nat) returns (r: Parsed<Datum>)
      modifies this
      ensures r == ParseBulkFrom(old(input), buffered)
      ensures input == r.Left()
    {
      var len := ReadNumber();
      match len
      case Ok(n, _) =>
        if n == -1 {
          return Ok(Null, input);
        }
        if n < 0 {
          return Crash(input);
        }
        var bytes := Fill(n, buffered);
        var _ := ReadLine();
        return Ok(Bulk(bytes), input);
      case End => return End;
      case Bad(left) => return Bad(left);
      case Crash(left) => return Crash(left);
    }

    method Read() returns (r: Parsed<Datum>)
      modifies this
      ensures r == Parse(old(input))
      ensures input == r.Left()
      decreases |input|, 0
    {
      var ok, kind := ReadByte();
      if !ok {
        return End;
      }
      if kind == ARRAY {
        r := ReadArray();
      } else if kind == BULK {
        r := ReadBulk(|input|);
      } else if kind == STRING || kind == ERROR {
        var line := ReadLine();
        match line
        case Ok(text, rest) => return Ok(if kind == STRING then Simple(text) else Failure(text), rest);
        case _ => return End;
      } else if kind == INTEGER {
        var num := ReadNumber();
        match num
        case Ok(n, rest) => return Ok(Integer(n), rest);
        case End => return End;
        case Bad(left) => return Bad(left);
        case Crash(left) => return Crash(left);
      } else {
        return Ok(Untyped, input);
      }
    }

    method ReadArray() returns (r: Parsed<Datum>)
      modifies this
      ensures r == Parse([ARRAY] + old(input))
      ensures input == r.Left()
      decreases |input|, 1
    {
      assert ([ARRAY] + input)[1..] == input;
      var len := ReadNumber();
      match len {
        case Ok(n, _) =>
          var items := ReadItems(if n < 0 then 0 else n);
          match items {
            case Ok(vs, rest) => return Ok(Array(vs), rest);
            case End => return End;
            case Bad(left) => return Bad(left);
            case Crash(left) => return Crash(left);
          }
        case End => return End;
        case Bad(left) => return Bad(left);
        case Crash(left) => return Crash(left);
      }
    }

    /** Reads `count` values, or up to the first that cannot be read. */
    method ReadItems(count: nat) returns (r: Parsed<seq<Datum>>)
      modifies this
      ensures r == ParseItems(count, old(input))
      ensures input == r.Left()
      decreases |input|, 2
    {
      ghost var start := input;
      var items: seq<Datum> := [];
      PrependedNone(ParseItems(count, input));
      while |items| < count
        invariant |items| <= count && |input| <= |start|
        invariant Prepended(items, ParseItems(count - |items|, input)) == ParseItems(count, start)
        decreases count - |items|
      {
        var v := Read();
        match v {
          case Ok(item, _) =>
            PrependedMore(items, item, ParseItems(count - |items| - 1, input));
            items := items + [item];
          case End => return End;
          case Bad(left) => return Bad(left);
          case Crash(left) => return Crash(left);
        }
      }
      assert items + [] == items;
      return Ok(items, input);
    }
  }

  /** Items read so far, put before the outcome of reading the rest. */
  ghost function Prepended(items: seq<Datum>, r: Parsed<seq<Datum>>): Parsed<seq<Datum>> {
    match r
    case Ok(vs, rest) => Ok(items + vs, rest)
    case _ => r
  }

  lemma PrependedNone(r: Parsed<seq<Datum>>)
    ensures Prepended([], r) == r
  {
    assert r.Ok? ==> [] + r.value == r.value;
  }

  lemma PrependedMore(items: seq<Datum>, v: Datum, r: Parsed<seq<Datum>>)
    ensures Prepended(items + [v], r) == Prepended(items, Prepended([v], r))
  {
    if r.Ok? {
      assert items + [v] + r.value == items + ([v] + r.value);
    }
  }

  /** A client's request and a server's reader agree: everything written is read back, in order. */
  method ReadBack(vs: seq<Datum>) returns (out: seq<Datum>)
    requires forall v :: v in vs ==> Clean(v) && Sized(v)
    ensures out == vs
  {
    var reader := new Reader(MarshalAll(vs));
    out := [];
    while |out| < |vs|
      invariant fresh(reader) && |out| <= |vs| && out == vs[..|out|] && reader.input == MarshalAll(vs[|out|..])
    {
      var rest := vs[|out|..];
      assert rest[1..] == vs[|out| + 1..];
      RoundTrip(rest[0], MarshalAll(rest[1..]));
      var r := reader.Read();
      out := out + [r.value];
    }
  }
}
