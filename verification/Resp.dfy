/** The Redis serialization protocol: values, their wire form, and a decoder for it. */
module Resp {
  import opened Bytes
  import opened Decimal

  const CR: byte := 13
  const LF: byte := 10
  const CRLF: seq<byte> := [CR, LF]

  const STRING: byte := 43   // '+'
  const ERROR: byte := 45    // '-'
  const INTEGER: byte := 58  // ':'
  const BULK: byte := 36     // '$'
  const ARRAY: byte := 42    // '*'

  /** `Untyped` is the zero value, which the reader returns for a type byte it does not know. */
  datatype Datum =
    | Array(items: seq<Datum>)
    | Bulk(bytes: seq<byte>)
    | Simple(text: seq<byte>)
    | Null
    | Failure(text: seq<byte>)
    | Integer(n: Int64)
    | Untyped

  // ----- encoding

  function Marshal(v: Datum): seq<byte>
    decreases v, 0
  {
    match v
    case Array(items) => [ARRAY] + Itoa(|items|) + CRLF + MarshalAll(items)
    case Bulk(bytes) => [BULK] + Itoa(|bytes|) + CRLF + bytes + CRLF
    case Simple(text) => [STRING] + text + CRLF
    case Null => [BULK] + [MINUS, ZERO + 1] + CRLF
    case Failure(text) => [ERROR] + text + CRLF
    case Integer(n) => [INTEGER] + Itoa(n) + CRLF
    case Untyped => []
  }

  function MarshalAll(vs: seq<Datum>): seq<byte>
    decreases vs, 1
  {
    if vs == [] then [] else Marshal(vs[0]) + MarshalAll(vs[1..])
  }

  // ----- decoding

  /** `End` is running out of input, `Bad` a number that does not parse, `Crash` a slice of negative length. */
  datatype Parsed<T> = Ok(value: T, rest: seq<byte>) | End | Bad(rest: seq<byte>) | Crash(rest: seq<byte>)
  {
    /** What has not been read. */
    function Left(): seq<byte> {
      if End? then [] else rest
    }
  }

  /** The line up to the first carriage return that has a byte after it; that byte is dropped unseen. */
  function ParseLine(input: seq<byte>): (r: Parsed<seq<byte>>)
    ensures r.Ok? ==> |r.rest| < |input|
  {
    if |input| < 2 then End
    else if input[0] == CR then Ok([], input[2..])
    else match ParseLine(input[1..])
      case Ok(line, rest) => Ok([input[0]] + line, rest)
      case _ => End
  }

  function ParseNumber(input: seq<byte>): (r: Parsed<Int64>)
    ensures r.Ok? ==> |r.rest| < |input|
  {
    match ParseLine(input)
    case Ok(line, rest) => (match ParseInt(line) case Number(n) => Ok(n, rest) case NaN => Bad(rest))
    case _ => End
  }

  /** A bulk string of the announced length, of which so many bytes can be had at once; zero bytes stand in for the
      others. Then the rest of its line, if there is one. */
  function ParseBulkFrom(input: seq<byte>, buffered: nat): (r: Parsed<Datum>)
    ensures r.Ok? ==> |r.rest| < |input|
  {
    match ParseNumber(input)
    case Ok(n, rest) =>
      if n == -1 then Ok(Null, rest)
      else if n < 0 then Crash(rest)
      else
        var have := Had(n, rest, buffered);
        var bytes := rest[..have] + seq(n - have, _ => 0);
        Ok(Bulk(bytes), ParseLine(rest[have..]).Left())
    case End => End
    case Bad(left) => Bad(left)
    case Crash(left) => Crash(left)
  }

  function Had(n: nat, rest: seq<byte>, buffered: nat): (have: nat)
    ensures have <= n && have <= |rest|
  {
    var some := if n <= |rest| then n else |rest|;
    if some <= buffered then some else buffered
  }

  /** A bulk string when all of the input is at hand. */
  function ParseBulk(input: seq<byte>): (r: Parsed<Datum>)
    ensures r.Ok? ==> |r.rest| < |input|
  {
    ParseBulkFrom(input, |input|)
  }

  function Parse(input: seq<byte>): (r: Parsed<Datum>)
    ensures r.Ok? ==> |r.rest| < |input|
    decreases |input|, 0
  {
    if input == [] then End
    else
      var body := input[1..];
      if input[0] == ARRAY then
        match ParseNumber(body)
        case Ok(n, rest) =>
          (match ParseItems(if n < 0 then 0 else n, rest)
           case Ok(items, rest') => Ok(Array(items), rest')
           case End => End
           case Bad(left) => Bad(left)
           case Crash(left) => Crash(left))
        case End => End
        case Bad(left) => Bad(left)
        case Crash(left) => Crash(left)
      else if input[0] == BULK then ParseBulk(body)
      else if input[0] == STRING
        then (match ParseLine(body) case Ok(line, rest) => Ok(Simple(line), rest) case _ => End)
      else if input[0] == ERROR
        then (match ParseLine(body) case Ok(line, rest) => Ok(Failure(line), rest) case _ => End)
      else if input[0] == INTEGER then
        (match ParseNumber(body)
         case Ok(n, rest) => Ok(Integer(n), rest)
         case End => End
         case Bad(left) => Bad(left)
         case Crash(left) => Crash(left))
      else Ok(Untyped, body)
  }

  function ParseItems(n: nat, input: seq<byte>): (r: Parsed<seq<Datum>>)
    ensures r.Ok? ==> |r.rest| <= |input| && |r.value| == n
    decreases |input|, n + 1
  {
    if n == 0 then Ok([], input)
    else match Parse(input)
      case Ok(v, rest) =>
        (match ParseItems(n - 1, rest)
         case Ok(vs, rest') => Ok([v] + vs, rest')
         case End => End
         case Bad(left) => Bad(left)
         case Crash(left) => Crash(left))
      case End => End
      case Bad(left) => Bad(left)
      case Crash(left) => Crash(left)
  }

  // ----- which values survive

  /** Simple strings and errors hold no carriage return. */
  ghost predicate Clean(v: Datum) {
    match v
    case Array(items) => forall x :: x in items ==> Clean(x)
    case Simple(text) => CR !in text
    case Failure(text) => CR !in text
    case Untyped => false
    case _ => true
  }

  /** Every length in the value fits a 64-bit integer, as every length in the program does. */
  ghost predicate Sized(v: Datum) {
    match v
    case Array(items) => |items| < LIMIT && forall x :: x in items ==> Sized(x)
    case Bulk(bytes) => |bytes| < LIMIT
    case _ => true
  }

  /** The value has one of the six types the writer knows. */
  ghost predicate Typed(v: Datum) {
    match v
    case Array(items) => forall x :: x in items ==> Typed(x)
    case Untyped => false
    case _ => true
  }

  // ----- round trip

  lemma {:induction false} LineBack(line: seq<byte>, rest: seq<byte>)
    requires CR !in line
    ensures ParseLine(line + CRLF + rest) == Ok(line, rest)
  {
    var input := line + CRLF + rest;
    if line == [] {
      assert input[2..] == rest;
    } else {
      assert input[1..] == line[1..] + CRLF + rest;
      LineBack(line[1..], rest);
      assert [line[0]] + line[1..] == line;
    }
  }

  lemma NumberBack(n: Int64, rest: seq<byte>)
    ensures ParseNumber(Itoa(n) + CRLF + rest) == Ok(n, rest)
  {
    PrintedClean(n);
    LineBack(Itoa(n), rest);
    PrintParse(n);
  }

  lemma BulkBack(bytes: seq<byte>, rest: seq<byte>)
    requires |bytes| < LIMIT
    ensures Parse(Marshal(Bulk(bytes)) + rest) == Ok(Bulk(bytes), rest)
  {
    var input := Marshal(Bulk(bytes)) + rest;
    var tail := bytes + CRLF + rest;
    assert input[1..] == Itoa(|bytes|) + CRLF + tail;
    NumberBack(|bytes|, tail);
    assert tail[..|bytes|] == bytes && tail[|bytes|..] == [] + CRLF + rest;
    LineBack([], rest);
    assert ParseBulk(input[1..]) == Ok(Bulk(bytes + seq(0, _ => 0)), rest);
    assert bytes + seq(0, _ => 0) == bytes;
  }

  /** Of a bulk string so many bytes are buffered when it is read: it survives if and only if the others are zeros. */
  lemma BulkSurvivesExactly(bytes: seq<byte>, rest: seq<byte>, buffered: nat)
    requires |bytes| < LIMIT
    ensures ParseBulkFrom(Itoa(|bytes|) + CRLF + (bytes + CRLF + rest), buffered) == Ok(Bulk(bytes), rest)
       <==> forall i :: buffered <= i < |bytes| ==> bytes[i] == 0
  {
    var tail := bytes + CRLF + rest;
    NumberBack(|bytes|, tail);
    var have := Had(|bytes|, tail, buffered);
    ShortBulk(bytes, have, tail, rest);
  }

  lemma ShortBulk(bytes: seq<byte>, have: nat, tail: seq<byte>, rest: seq<byte>)
    requires have <= |bytes| && tail == bytes + CRLF + rest
    ensures tail[..have] + seq(|bytes| - have, _ => 0) == bytes <==> forall i :: have <= i < |bytes| ==> bytes[i] == 0
    ensures (forall i :: have <= i < |bytes| ==> bytes[i] == 0) ==> ParseLine(tail[have..]) == Ok(bytes[have..], rest)
  {
    var got := tail[..have] + seq(|bytes| - have, _ => 0);
    assert tail[..have] == bytes[..have] && tail[have..] == bytes[have..] + CRLF + rest;
    if forall i :: have <= i < |bytes| ==> bytes[i] == 0 {
      LineBack(bytes[have..], rest);
    } else {
      var i :| have <= i < |bytes| && bytes[i] != 0;
      assert got[i] == 0;
    }
  }

  lemma NullBack(rest: seq<byte>)
    ensures Parse(Marshal(Null) + rest) == Ok(Null, rest)
  {
    var input := Marshal(Null) + rest;
    assert Itoa(-1) == [MINUS, ZERO + 1];
    assert input[1..] == Itoa(-1) + CRLF + rest;
    NumberBack(-1, rest);
  }

  lemma TextBack(v: Datum, rest: seq<byte>)
    requires (v.Simple? || v.Failure?) && CR !in v.text
    ensures Parse(Marshal(v) + rest) == Ok(v, rest)
  {
    assert (Marshal(v) + rest)[1..] == v.text + CRLF + rest;
    LineBack(v.text, rest);
  }

  lemma IntegerBack(n: Int64, rest: seq<byte>)
    ensures Parse(Marshal(Integer(n)) + rest) == Ok(Integer(n), rest)
  {
    assert (Marshal(Integer(n)) + rest)[1..] == Itoa(n) + CRLF + rest;
    NumberBack(n, rest);
  }

  /** Reading what was written, followed by anything, gives the value back and leaves the rest. */
  lemma {:induction false} RoundTrip(v: Datum, rest: seq<byte>)
    requires Clean(v) && Sized(v)
    ensures Parse(Marshal(v) + rest) == Ok(v, rest)
    decreases v, 0
  {
    match v
    case Array(items) =>
      var tail := MarshalAll(items) + rest;
      assert (Marshal(v) + rest)[1..] == Itoa(|items|) + CRLF + tail;
      NumberBack(|items|, tail);
      ItemsBack(items, rest);
    case Bulk(bytes) => BulkBack(bytes, rest);
    case Null => NullBack(rest);
    case Integer(n) => IntegerBack(n, rest);
    case _ => TextBack(v, rest);
  }

  lemma {:induction false} ItemsBack(vs: seq<Datum>, rest: seq<byte>)
    requires forall v :: v in vs ==> Clean(v) && Sized(v)
    ensures ParseItems(|vs|, MarshalAll(vs) + rest) == Ok(vs, rest)
    decreases vs, 1
  {
    if vs != [] {
      assert MarshalAll(vs) + rest == Marshal(vs[0]) + (MarshalAll(vs[1..]) + rest);
      RoundTrip(vs[0], MarshalAll(vs[1..]) + rest);
      ItemsBack(vs[1..], rest);
      assert vs == [vs[0]] + vs[1..];
    }
  }

  // ----- and only those

  lemma {:induction false} LineClean(input: seq<byte>)
    ensures var r := ParseLine(input); r.Ok? ==> CR !in r.value
  {
    if |input| >= 2 && input[0] != CR {
      LineClean(input[1..]);
    }
  }

  /** Nothing the reader returns, apart from the zero value, has a carriage return in a simple string or error. */
  lemma {:induction false} ParsedClean(input: seq<byte>)
    ensures var r := Parse(input); r.Ok? && Typed(r.value) ==> Clean(r.value)
    decreases |input|, 0
  {
    if input != [] {
      var body := input[1..];
      LineClean(body);
      if input[0] == ARRAY {
        var num := ParseNumber(body);
        if num.Ok? {
          ItemsClean(if num.value < 0 then 0 else num.value, num.rest);
        }
      }
    }
  }

  lemma {:induction false} ItemsClean(n: nat, input: seq<byte>)
    ensures var r := ParseItems(n, input);
            r.Ok? ==> forall x :: x in r.value && Typed(x) ==> Clean(x)
    decreases |input|, n + 1
  {
    if n > 0 {
      ParsedClean(input);
      var first := Parse(input);
      if first.Ok? {
        ItemsClean(n - 1, first.rest);
      }
    }
  }

  /** A value survives the wire if and only if its simple strings and errors hold no carriage return. */
  lemma SurvivesExactly(v: Datum)
    requires Typed(v) && Sized(v)
    ensures (forall rest :: Parse(Marshal(v) + rest) == Ok(v, rest)) <==> Clean(v)
  {
    if Clean(v) {
      forall rest ensures Parse(Marshal(v) + rest) == Ok(v, rest) { RoundTrip(v, rest); }
    } else {
      ParsedClean(Marshal(v) + []);
      assert Parse(Marshal(v) + []) != Ok(v, []);
    }
  }

  /** Commands written one after the other are read back one after the other: the wire form is uniquely decodable. */
  lemma UniquelyDecodable(vs: seq<Datum>, ws: seq<Datum>, rest: seq<byte>, rest': seq<byte>)
    requires (forall v :: v in vs ==> Clean(v) && Sized(v)) && (forall w :: w in ws ==> Clean(w) && Sized(w))
    requires |vs| == |ws| && MarshalAll(vs) + rest == MarshalAll(ws) + rest'
    ensures vs == ws && rest == rest'
  {
    ItemsBack(vs, rest);
    ItemsBack(ws, rest');
  }
}
