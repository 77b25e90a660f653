/** The wire form of the Redis serialization protocol, version 2, written down from the protocol's description, and the
    agreement of the writer and the reader with it. */
module RespWire {
  import opened Bytes
  import opened Decimal
  import opened Resp

  // ----- numbers

  function Pow10(n: nat): nat {
    if n == 0 then 1 else 10 * Pow10(n - 1)
  }

  ghost predicate AreDigits(ds: seq<byte>) {
    ds != [] && forall d :: d in ds ==> Code('0') <= d <= Code('9')
  }

  /** The digits weighted with powers of ten. */
  ghost function Sum(ds: seq<byte>): int {
    if ds == [] then 0 else (ds[0] as int - Code('0') as int) * Pow10(|ds| - 1) + Sum(ds[1..])
  }

  /** Decimal digits after an optional sign. */
  ghost predicate Spells(text: seq<byte>, n: int) {
    || (AreDigits(text) && n == Sum(text))
    || (text != [] && text[0] == Code('+') && AreDigits(text[1..]) && n == Sum(text[1..]))
    || (text != [] && text[0] == Code('-') && AreDigits(text[1..]) && n == -Sum(text[1..]))
  }

  // ----- values

  /** A simple string is '+', its text and CR LF; an error the same with '-'; an integer is ':', the number and CR LF; a
      bulk string '$', its length, CR LF, its bytes and CR LF; null is "$-1" and CR LF; an array '*', the number of its
      elements, CR LF and the elements. */
  ghost predicate IsWire(w: seq<byte>, v: Datum)
    decreases v, 0
  {
    match v
    case Simple(text) => w == Ascii("+") + text + Ascii("\r\n")
    case Failure(text) => w == Ascii("-") + text + Ascii("\r\n")
    case Integer(n) => exists t :: Spells(t, n) && w == Ascii(":") + t + Ascii("\r\n")
    case Bulk(bytes) => exists t :: Spells(t, |bytes|) && w == Ascii("$") + t + Ascii("\r\n") + bytes + Ascii("\r\n")
    case Null => w == Ascii("$-1\r\n")
    case Array(items) =>
      exists t, ws :: Spells(t, |items|) && AreWire(ws, items) && w == Ascii("*") + t + Ascii("\r\n") + ws
    case Untyped => false
  }

  /** The values one after the other. */
  ghost predicate AreWire(w: seq<byte>, vs: seq<Datum>)
    decreases vs, 1
  {
    if vs == [] then w == []
    else exists x, y :: IsWire(x, vs[0]) && AreWire(y, vs[1..]) && w == x + y
  }

  // ----- numbers as they are printed and parsed

  lemma Signs()
    ensures Ascii("+") == [STRING] && Ascii("-") == [ERROR] && Ascii(":") == [INTEGER] && Ascii("$") == [BULK]
    ensures Ascii("*") == [ARRAY] && Ascii("\r\n") == CRLF && Ascii("$-1\r\n") == [BULK, MINUS, ZERO + 1, CR, LF]
    ensures Code('0') == ZERO && Code('9') == NINE && Code('+') == PLUS && Code('-') == MINUS && Code('\r') == CR
  {
  }

  lemma {:induction false} SumShift(ds: seq<byte>, d: byte)
    requires ZERO <= d <= NINE
    ensures Sum(ds + [d]) == Sum(ds) * 10 + (d as int - ZERO as int)
  {
    if ds == [] {
      assert [d][1..] == [] && Pow10(0) == 1;
    } else {
      var es := ds + [d];
      assert es[0] == ds[0] && es[1..] == ds[1..] + [d];
      SumShift(ds[1..], d);
      assert Pow10(|ds|) == 10 * Pow10(|ds| - 1);
      Tenfold(ds[0] as int - Code('0') as int, Pow10(|ds| - 1));
    }
  }

  lemma Tenfold(a: int, p: int)
    ensures a * (10 * p) == (a * p) * 10
  {
  }

  lemma {:induction false} SumIsValue(ds: seq<byte>)
    requires forall d :: d in ds ==> IsDigit(d)
    ensures Sum(ds) == ValueOf(ds)
  {
    if ds != [] {
      var init, last := ds[..|ds| - 1], ds[|ds| - 1];
      assert last in ds;
      SumIsValue(init);
      SumShift(init, last);
      assert ds == init + [last];
    }
  }

  lemma DigitsAre(ds: seq<byte>)
    ensures AreDigits(ds) <==> ds != [] && AllDigits(ds)
    ensures AreDigits(ds) ==> Sum(ds) == ValueOf(ds)
  {
    assert Code('0') == ZERO && Code('9') == NINE;
    if AreDigits(ds) {
      SumIsValue(ds);
    }
  }

  /** What is parsed is what the digits say, and everything they say within 64 bits is parsed. */
  lemma ParsedExactly(text: seq<byte>, n: Int64)
    ensures ParseInt(text) == Number(n) <==> Spells(text, n)
  {
    hide Sum, ValueOf, AreDigits;
    assert Code('+') == PLUS && Code('-') == MINUS;
    DigitsAre(text);
    if text != [] && (text[0] == PLUS || text[0] == MINUS) {
      assert text[0] in text && !IsDigit(text[0]);
      DigitsAre(text[1..]);
    }
  }

  lemma PrintedSpells(n: Int64)
    ensures Spells(Itoa(n), n)
  {
    PrintParse(n);
    ParsedExactly(Itoa(n), n);
  }

  /** A spelled number holds no carriage return, and is read back. */
  lemma SpelledBack(t: seq<byte>, n: Int64, rest: seq<byte>)
    requires Spells(t, n)
    ensures ParseNumber(t + CRLF + rest) == Ok(n, rest)
  {
    hide Spells;
    SpelledClean(t, n);
    ParsedExactly(t, n);
    LineBack(t, rest);
  }

  lemma SpelledClean(t: seq<byte>, n: int)
    requires Spells(t, n)
    ensures CR !in t
  {
    hide Sum;
    assert Code('0') == 48 && Code('9') == 57 && Code('+') == 43 && Code('-') == 45;
    forall i | 0 <= i < |t| ensures t[i] != CR {
      assert t[i] in t && (i > 0 ==> t[1..][i - 1] == t[i] && t[i] in t[1..]);
    }
  }

  // ----- the writer

  lemma {:induction false} WrittenForm(v: Datum)
    requires Typed(v) && Sized(v)
    ensures IsWire(Marshal(v), v)
    decreases v, 0
  {
    hide Ascii, Spells;
    Signs();
    match v
    case Array(items) =>
      PrintedSpells(|items|);
      WrittenForms(items);
      assert Marshal(v) == Ascii("*") + Itoa(|items|) + Ascii("\r\n") + MarshalAll(items);
    case Bulk(bytes) =>
      PrintedSpells(|bytes|);
      assert Marshal(v) == Ascii("$") + Itoa(|bytes|) + Ascii("\r\n") + bytes + Ascii("\r\n");
    case Integer(n) =>
      PrintedSpells(n);
      assert Marshal(v) == Ascii(":") + Itoa(n) + Ascii("\r\n");
    case _ =>
  }

  lemma {:induction false} WrittenForms(vs: seq<Datum>)
    requires forall v :: v in vs ==> Typed(v) && Sized(v)
    ensures AreWire(MarshalAll(vs), vs)
    decreases vs, 1
  {
    if vs != [] {
      WrittenForm(vs[0]);
      WrittenForms(vs[1..]);
    }
  }

  // ----- the reader

  /** Every wire form of a value, not only the one the writer chooses, is read as that value. */
  lemma {:induction false} ReadForm(w: seq<byte>, v: Datum, rest: seq<byte>)
    requires IsWire(w, v) && Clean(v) && Sized(v)
    ensures Parse(w + rest) == Ok(v, rest)
    decreases v, 1
  {
    hide Ascii, Spells;
    Signs();
    match v
    case Array(items) => ReadArrayForm(w, items, rest);
    case Bulk(bytes) => ReadBulkForm(w, bytes, rest);
    case Integer(n) =>
      var t :| Spells(t, n) && w == Ascii(":") + t + Ascii("\r\n");
      assert (w + rest)[1..] == t + CRLF + rest;
      SpelledBack(t, n, rest);
    case Null =>
      assert w == Marshal(Null);
      NullBack(rest);
    case Simple(_) =>
      assert w == Marshal(v);
      TextBack(v, rest);
    case Failure(_) =>
      assert w == Marshal(v);
      TextBack(v, rest);
    case Untyped =>
  }

  lemma ReadBulkForm(w: seq<byte>, bytes: seq<byte>, rest: seq<byte>)
    requires IsWire(w, Bulk(bytes)) && |bytes| < LIMIT
    ensures Parse(w + rest) == Ok(Bulk(bytes), rest)
  {
    hide Ascii, Spells;
    Signs();
    var t :| Spells(t, |bytes|) && w == Ascii("$") + t + Ascii("\r\n") + bytes + Ascii("\r\n");
    var tail := bytes + CRLF + rest;
    assert (w + rest)[1..] == t + CRLF + tail;
    SpelledBack(t, |bytes|, tail);
    assert tail[..|bytes|] == bytes && tail[|bytes|..] == [] + CRLF + rest;
    LineBack([], rest);
    assert bytes + seq(0, _ => 0) == bytes;
  }

  lemma {:induction false} ReadArrayForm(w: seq<byte>, items: seq<Datum>, rest: seq<byte>)
    requires IsWire(w, Array(items)) && Clean(Array(items)) && Sized(Array(items))
    ensures Parse(w + rest) == Ok(Array(items), rest)
    decreases Array(items), 0
  {
    hide Ascii, Spells;
    Signs();
    var t, ws :| Spells(t, |items|) && AreWire(ws, items) && w == Ascii("*") + t + Ascii("\r\n") + ws;
    assert (w + rest)[1..] == t + CRLF + (ws + rest);
    SpelledBack(t, |items|, ws + rest);
    ReadForms(ws, items, rest);
  }

  lemma ItemsStep(v: Datum, vs: seq<Datum>, input: seq<byte>, mid: seq<byte>, rest: seq<byte>)
    requires Parse(input) == Ok(v, mid) && ParseItems(|vs|, mid) == Ok(vs, rest)
    ensures ParseItems(|vs| + 1, input) == Ok([v] + vs, rest)
  {
    hide Parse;
  }

  lemma {:induction false} ReadForms(w: seq<byte>, vs: seq<Datum>, rest: seq<byte>)
    requires AreWire(w, vs) && forall v :: v in vs ==> Clean(v) && Sized(v)
    ensures ParseItems(|vs|, w + rest) == Ok(vs, rest)
    decreases vs, 2
  {
    hide IsWire, Parse, Clean, Sized;
    if vs == [] {
      assert w + rest == rest;
    } else {
      hide ParseItems;
      var x, y :| IsWire(x, vs[0]) && AreWire(y, vs[1..]) && w == x + y;
      assert w + rest == x + (y + rest);
      ReadForm(x, vs[0], y + rest);
      ReadForms(y, vs[1..], rest);
      ItemsStep(vs[0], vs[1..], w + rest, y + rest, rest);
      assert vs == [vs[0]] + vs[1..];
    }
  }
}
