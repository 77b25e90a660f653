/** Decimal numbers as Go prints and parses them: `strconv.Itoa` and `strconv.ParseInt` in base 10, 64 bits. */
module Decimal {
  import opened Bytes

  const LIMIT: int := 0x8000_0000_0000_0000

  type Int64 = n: int | -LIMIT <= n < LIMIT

  const ZERO: byte := 48
  const NINE: byte := 57
  const PLUS: byte := 43
  const MINUS: byte := 45

  datatype Number = NaN | Number(n: Int64)

  predicate IsDigit(b: byte) {
    ZERO <= b <= NINE
  }

  predicate AllDigits(ds: seq<byte>) {
    forall d :: d in ds ==> IsDigit(d)
  }

  function Digits(n: nat): (ds: seq<byte>)
    ensures ds != [] && forall d :: d in ds ==> IsDigit(d)
  {
    if n < 10 then [ZERO + n] else Digits(n / 10) + [ZERO + n % 10]
  }

  function Itoa(n: int): (s: seq<byte>) {
    if n < 0 then [MINUS] + Digits(-n) else Digits(n)
  }

  /** The value of a string of digits. */
  function ValueOf(ds: seq<byte>): nat
    requires forall d :: d in ds ==> IsDigit(d)
  {
    if ds == [] then 0
    else
      var last := ds[|ds| - 1];
      assert IsDigit(last);
      ValueOf(ds[..|ds| - 1]) * 10 + (last - ZERO)
  }

  /** Digits after an optional sign, within 64 bits; anything else is an error. */
  function ParseInt(s: seq<byte>): Number {
    var signed := s != [] && (s[0] == PLUS || s[0] == MINUS);
    var ds := if signed then s[1..] else s;
    if ds == [] || !AllDigits(ds) then NaN
    else
      var v: int := ValueOf(ds);
      if signed && s[0] == MINUS then
        if v > LIMIT then NaN else Number(-v)
      else if v >= LIMIT then NaN
      else Number(v)
  }

  lemma {:induction false} ValueOfDigits(n: nat)
    ensures ValueOf(Digits(n)) == n
  {
    var ds := Digits(n);
    if n >= 10 {
      ValueOfDigits(n / 10);
      assert ds[..|ds| - 1] == Digits(n / 10);
    } else {
      assert ds[..|ds| - 1] == [];
    }
  }

  /** What is printed is parsed back, over all of the 64-bit range. */
  lemma PrintParse(n: Int64)
    ensures ParseInt(Itoa(n)) == Number(n)
  {
    var m: int := n;
    var size: nat := if m < 0 then -m else m;
    var ds := Digits(size);
    ValueOfDigits(size);
    assert IsDigit(ds[0]);
    assert forall i :: 0 <= i < |ds| ==> IsDigit(ds[i]);
    if n < 0 {
      assert Itoa(n)[1..] == ds;
    }
  }

  /** Printed numbers hold no carriage return. */
  lemma PrintedClean(n: int)
    ensures forall b :: b in Itoa(n) ==> b != 13
  {
  }
}
