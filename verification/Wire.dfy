/** Big-endian lengths and length-prefixed strings, as the log files hold them. */
module Wire {
  import opened Bytes

  const TWO16: nat := 0x1_0000
  const TWO32: nat := 0x1_0000_0000

  /** A 16-bit length; longer lengths wrap around. */
  function Put16(n: nat): (b: seq<byte>)
    ensures |b| == 2
  {
    var m := n % TWO16;
    [m / 256, m % 256]
  }

  function Get16(b: seq<byte>): (n: nat)
    requires |b| >= 2
    ensures n < TWO16
  {
    (b[0] as int) * 256 + b[1] as int
  }

  /** A 32-bit length; longer lengths wrap around. */
  function Put32(n: nat): (b: seq<byte>)
    ensures |b| == 4
  {
    Put16(n % TWO32 / TWO16) + Put16(n)
  }

  function Get32(b: seq<byte>): (n: nat)
    requires |b| >= 4
    ensures n < TWO32
  {
    Get16(b) * TWO16 + Get16(b[2..])
  }

  lemma Back16(n: nat, rest: seq<byte>)
    ensures Get16(Put16(n) + rest) == n % TWO16
  {
  }

  lemma Back32(n: nat, rest: seq<byte>)
    ensures Get32(Put32(n) + rest) == n % TWO32
  {
    var hi, lo := n % TWO32 / TWO16, n % TWO16;
    Back16(hi, Put16(n) + rest);
    Back16(n, rest);
    assert Put32(n) + rest == Put16(hi) + (Put16(n) + rest);
    assert (Put32(n) + rest)[2..] == Put16(n) + rest;
    assert hi < TWO16 && n % TWO32 == hi * TWO16 + lo;
  }

  lemma Whole16(n: nat, rest: seq<byte>)
    requires n < TWO16
    ensures Get16(Put16(n) + rest) == n
  {
    Back16(n, rest);
  }

  lemma Whole32(n: nat, rest: seq<byte>)
    requires n < TWO32
    ensures Get32(Put32(n) + rest) == n
  {
    Back32(n, rest);
  }

  /** What was read is what is written again. */
  lemma Again16(b: seq<byte>)
    requires |b| >= 2
    ensures Put16(Get16(b)) == b[..2]
  {
    var n := Get16(b);
    assert n / 256 == b[0] && n % 256 == b[1];
  }

  lemma Again32(b: seq<byte>)
    requires |b| >= 4
    ensures Put32(Get32(b)) == b[..4]
  {
    var hi, lo := Get16(b), Get16(b[2..]);
    var n := Get32(b);
    assert n / TWO16 == hi && n % TWO16 == lo && n % TWO32 == n;
    Again16(b);
    Again16(b[2..]);
    assert Put16(n) == Put16(lo);
    assert b[..4] == b[..2] + b[2..][..2];
  }

  lemma Slices(x: seq<byte>, a: seq<byte>, tail: seq<byte>)
    ensures (x + (a + tail))[|x|..|x| + |a|] == a
    ensures (x + (a + tail))[|x| + |a|..] == tail
  {
  }

  /** A string behind its 32-bit length. */
  function PutString(s: seq<byte>): (b: seq<byte>)
    ensures |b| == 4 + |s|
  {
    Put32(|s|) + s
  }

  datatype Taken = Short | Taken(s: seq<byte>, rest: seq<byte>)

  /** The length-prefixed string at the start of the data, if all of it is there. */
  function TakeString(data: seq<byte>): (r: Taken)
    ensures r.Taken? ==> |r.s| < TWO32 && |r.rest| == |data| - 4 - |r.s|
  {
    if |data| < 4 then Short
    else
      var len := Get32(data);
      if 4 + len > |data| then Short else Taken(data[4..4 + len], data[4 + len..])
  }

  lemma TakeBack(s: seq<byte>, rest: seq<byte>)
    requires |s| < TWO32
    ensures TakeString(PutString(s) + rest) == Taken(s, rest)
  {
    hide Put32, Get32;
    assert PutString(s) + rest == Put32(|s|) + (s + rest);
    Whole32(|s|, s + rest);
    Slices(Put32(|s|), s, rest);
  }

  lemma TakeTorn(s: seq<byte>, cut: nat)
    requires |s| < TWO32 && cut < 4 + |s|
    ensures TakeString(PutString(s)[..cut]) == Short
  {
    hide Put32, Get32;
    if cut >= 4 {
      assert PutString(s)[..cut] == Put32(|s|) + s[..cut - 4];
      Whole32(|s|, s[..cut - 4]);
    }
  }

  /** A string that was read stands in the data as it would be written. */
  lemma TakeAgain(data: seq<byte>)
    requires TakeString(data).Taken?
    ensures data == PutString(TakeString(data).s) + TakeString(data).rest
  {
    hide Put32, Get32;
    Again32(data);
    var len := Get32(data);
    assert data == data[..4] + data[4..4 + len] + data[4 + len..];
  }

  // ----- the form of it

  /** Two bytes that spell a number, the higher first. */
  predicate Spells16(b: seq<byte>, n: nat) {
    |b| == 2 && (b[0] as int) * 256 + b[1] as int == n
  }

  /** Four bytes that spell a number, the highest first. */
  predicate Spells32(b: seq<byte>, n: nat) {
    |b| == 4 && (b[0] as int) * 16777216 + (b[1] as int) * 65536 + (b[2] as int) * 256 + b[3] as int == n
  }

  /** A string behind its length in four bytes. */
  predicate Counted(b: seq<byte>, s: seq<byte>) {
    |b| == 4 + |s| && Spells32(b[..4], |s|) && b[4..] == s
  }

  lemma PutSpells(n: nat)
    ensures Spells16(Put16(n), n % 65536) && Spells32(Put32(n), n % 4294967296)
  {
    var m := n % TWO32;
    assert m / TWO16 % TWO16 == m / TWO16 && m % TWO16 == n % TWO16;
  }

  lemma PutCounted(s: seq<byte>)
    requires |s| < TWO32
    ensures Counted(PutString(s), s)
  {
    hide Put32, Spells32;
    PutSpells(|s|);
  }

  /** The counted form of a string is the one that is written, and no other. */
  lemma CountedExactly(b: seq<byte>, s: seq<byte>)
    ensures Counted(b, s) <==> |s| < TWO32 && b == PutString(s)
  {
    if |s| < TWO32 {
      PutCounted(s);
    }
    if Counted(b, s) {
      hide Put32, Put16;
      Again32(b);
      assert Get32(b) == |s|;
      assert b == b[..4] + b[4..];
    }
  }

  lemma Spells16Exactly(b: seq<byte>, n: nat)
    ensures Spells16(b, n) <==> n < TWO16 && b == Put16(n)
  {
    PutSpells(n);
    if Spells16(b, n) {
      hide Put16;
      Again16(b);
      assert b == b[..2];
    }
  }

  lemma Spells32Exactly(b: seq<byte>, n: nat)
    ensures Spells32(b, n) <==> n < TWO32 && b == Put32(n)
  {
    PutSpells(n);
    if Spells32(b, n) {
      hide Put32, Put16;
      Again32(b);
      assert Get32(b) == n;
      assert b == b[..4];
    }
  }
}
