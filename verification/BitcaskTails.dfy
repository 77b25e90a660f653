/** Bitcask logs that end in something else than whole records: what recovery makes of the tail. */
module BitcaskTails {
  import opened Bytes
  import opened Tables
  import opened Wire
  import opened Bitcask

  // ----- the records recovery finds

  /** The records found from a position on, whole or not. */
  ghost function Found(file: seq<byte>, pos: nat): seq<Record>
    requires pos <= |file|
    decreases |file| - pos
  {
    if pos == |file| then [] else EntryAt(file, pos).rec + Found(file, EntryAt(file, pos).pos)
  }

  lemma {:induction false} ApplyBoth(t: Tables, a: seq<Record>, b: seq<Record>)
    ensures ApplyAll(t, a + b) == ApplyAll(ApplyAll(t, a), b)
    decreases a
  {
    if a == [] {
      assert a + b == b;
    } else {
      assert (a + b)[1..] == a[1..] + b;
      ApplyBoth(Apply(t, a[0]), a[1..], b);
    }
  }

  /** Recovery applies what it finds. */
  lemma {:induction false} RecoverApplies(file: seq<byte>, pos: nat, t: Tables)
    requires pos <= |file|
    ensures RecoverFrom(file, pos, t) == ApplyAll(t, Found(file, pos))
    decreases |file| - pos
  {
    hide EntryAt, ApplyAll;
    if pos < |file| {
      var e := EntryAt(file, pos);
      RecoverApplies(file, e.pos, ApplyAll(t, e.rec));
      ApplyBoth(t, e.rec, Found(file, e.pos));
    } else {
      ApplyNone(t);
    }
  }

  lemma ApplyNone(t: Tables)
    ensures ApplyAll(t, []) == t
  {
  }

  // ----- what is found in a tail depends on the tail only

  lemma StringShift(pre: seq<byte>, tail: seq<byte>, pos: nat)
    requires pos <= |tail|
    ensures StringAt(pre + tail, |pre| + pos) == Cursor(StringAt(tail, pos).s, |pre| + StringAt(tail, pos).pos)
  {
    hide Get32;
    assert (pre + tail)[|pre| + pos..] == tail[pos..];
    if pos + 4 <= |tail| {
      var len := Get32(tail[pos..]);
      if pos + 4 + len <= |tail| {
        assert (pre + tail)[|pre| + pos + 4..|pre| + pos + 4 + len] == tail[pos + 4..pos + 4 + len];
      }
    }
  }

  lemma EntryShift(pre: seq<byte>, tail: seq<byte>, pos: nat)
    requires pos < |tail|
    ensures EntryAt(pre + tail, |pre| + pos) == Entry(EntryAt(tail, pos).rec, |pre| + EntryAt(tail, pos).pos)
  {
    hide StringAt;
    assert (pre + tail)[|pre| + pos] == tail[pos];
    StringShift(pre, tail, pos + 1);
    var a := StringAt(tail, pos + 1);
    StringShift(pre, tail, a.pos);
    var b := StringAt(tail, a.pos);
    StringShift(pre, tail, b.pos);
  }

  lemma {:induction false} FoundShift(pre: seq<byte>, tail: seq<byte>, pos: nat)
    requires pos <= |tail|
    ensures Found(pre + tail, |pre| + pos) == Found(tail, pos)
    decreases |tail| - pos
  {
    hide EntryAt;
    if pos < |tail| {
      EntryShift(pre, tail, pos);
      FoundShift(pre, tail, EntryAt(tail, pos).pos);
    }
  }

  /** A log with a tail recovers to what the log says and then what is found in the tail. */
  lemma OpenTail(rs: seq<Record>, tail: seq<byte>)
    requires AllFit(rs)
    ensures var file := MAGIC + LogOf(rs) + tail;
            Open(file) == Opened(ApplyAll(ApplyAll(EMPTY, rs), Found(tail, 0)), file)
  {
    hide RecoverFrom, ApplyAll, Found, LogOf;
    var pre := MAGIC + LogOf(rs);
    Resume(MAGIC, rs, tail, EMPTY);
    RecoverApplies(pre + tail, |pre|, ApplyAll(EMPTY, rs));
    FoundShift(pre, tail, 0);
    assert (pre + tail)[..|MAGIC|] == MAGIC;
  }

  // ----- tails that are ignored

  ghost predicate IsOp(b: byte) {
    b == OP_SET || b == OP_DEL || b == OP_HSET
  }

  ghost predicate OpFree(tail: seq<byte>, pos: nat) {
    forall i :: pos <= i < |tail| ==> !IsOp(tail[i])
  }

  /** Nothing is found if and only if there is no operation byte. */
  lemma {:induction false} FoundNothing(tail: seq<byte>, pos: nat)
    requires pos <= |tail|
    ensures Found(tail, pos) == [] <==> OpFree(tail, pos)
    decreases |tail| - pos
  {
    hide StringAt;
    if pos < |tail| {
      FoundNothing(tail, pos + 1);
      assert OpFree(tail, pos) <==> !IsOp(tail[pos]) && OpFree(tail, pos + 1);
    }
  }

  /** What is found has lengths that fit. */
  lemma EntryFits(file: seq<byte>, pos: nat)
    requires pos < |file|
    ensures AllFit(EntryAt(file, pos).rec)
  {
    hide Get32;
  }

  lemma {:induction false} FoundFits(file: seq<byte>, pos: nat)
    requires pos <= |file|
    ensures AllFit(Found(file, pos))
    decreases |file| - pos
  {
    hide EntryAt, Fits;
    if pos < |file| {
      EntryFits(file, pos);
      FoundFits(file, EntryAt(file, pos).pos);
    }
  }

  /** A log of at most one record after which a given last record shows. */
  function Base(last: Record): seq<Record> {
    if last.Del? then [Set(last.key, [])] else []
  }

  lemma BaseTables(last: Record)
    ensures ApplyAll(EMPTY, Base(last)) == if last.Del? then SetString(EMPTY, last.key, []) else EMPTY
  {
    assert last.Del? ==> Base(last)[1..] == [];
  }

  lemma BaseShows(rs: seq<Record>)
    requires rs != []
    ensures var t := ApplyAll(EMPTY, Base(rs[|rs| - 1])); ApplyAll(t, rs) != t
  {
    hide ApplyAll, Base;
    var last := rs[|rs| - 1];
    var t := ApplyAll(EMPTY, Base(last));
    BaseTables(last);
    assert rs == rs[..|rs| - 1] + [last];
    ApplyExtends(t, rs[..|rs| - 1], last);
    var u := Apply(ApplyAll(t, rs[..|rs| - 1]), last);
    match last
    case Set(k, v) =>
      assert k in u.strings;
    case Del(k) =>
      assert k !in u.strings;
    case HSet(h, f, v) =>
      assert h in u.hashes;
  }

  /** The tail changes nothing, whatever log it stands behind. */
  ghost predicate Ignored(tail: seq<byte>) {
    forall rs :: AllFit(rs) ==>
      Open(MAGIC + LogOf(rs) + tail) == Opened(ApplyAll(EMPTY, rs), MAGIC + LogOf(rs) + tail)
  }

  /** Recovery ignores a tail if and only if no byte of it names an operation. */
  lemma TailIgnoredExactly(tail: seq<byte>)
    ensures Ignored(tail) <==> OpFree(tail, 0)
  {
    hide Open, LogOf, ApplyAll, Found, OpFree, AllFit;
    FoundNothing(tail, 0);
    var fs := Found(tail, 0);
    if fs == [] {
      forall rs | AllFit(rs)
        ensures Open(MAGIC + LogOf(rs) + tail) == Opened(ApplyAll(EMPTY, rs), MAGIC + LogOf(rs) + tail) {
        OpenTail(rs, tail);
        ApplyNone(ApplyAll(EMPTY, rs));
      }
    } else {
      var base := Base(fs[|fs| - 1]);
      FoundFits(tail, 0);
      BaseFits(fs);
      OpenTail(base, tail);
      BaseShows(fs);
    }
  }

  lemma BaseFits(rs: seq<Record>)
    requires rs != [] && AllFit(rs)
    ensures AllFit(Base(rs[|rs| - 1]))
  {
    var last := rs[|rs| - 1];
    assert last in rs && Fits(last);
    if last.Del? {
      assert last.key in Parts(last);
    }
  }

  /** No cut-off record is ignored: behind some log, recovery makes something else of it. */
  lemma TornRecord(r: Record, cut: nat)
    requires 0 < cut < |Encode(r)|
    ensures !Ignored(Encode(r)[..cut])
  {
    var tail := Encode(r)[..cut];
    TailIgnoredExactly(tail);
    assert tail[0] == OpOf(r) && IsOp(tail[0]);
  }

  /** For one: behind any log, a lone 'S' stores an empty value under the empty key. */
  lemma TornSet(rs: seq<Record>)
    requires AllFit(rs)
    ensures Open(MAGIC + LogOf(rs) + [OP_SET]).Opened?
    ensures Open(MAGIC + LogOf(rs) + [OP_SET]).tables == Apply(ApplyAll(EMPTY, rs), Set([], []))
  {
    hide LogOf;
    OpenTail(rs, [OP_SET]);
    var e := EntryAt([OP_SET], 0);
    assert e == Entry([Set([], [])], 1);
    assert Found([OP_SET], 1) == [];
    assert Found([OP_SET], 0) == [Set([], [])];
    assert [Set([], [])][1..] == [];
  }

  // ----- strings too long for their length field

  ghost predicate ShortMap(m: map<Key, Value>) {
    forall k :: k in m ==> |k| < TWO32 && |m[k]| < TWO32
  }

  ghost predicate Short(t: Tables) {
    ShortMap(t.strings) && forall h :: h in t.hashes ==> |h| < TWO32 && ShortMap(t.hashes[h])
  }

  lemma ApplyShort(t: Tables, r: Record)
    requires Short(t) && Fits(r)
    ensures Short(Apply(t, r))
  {
    assert forall p :: p in Parts(r) ==> |p| < TWO32;
    match r
    case Set(k, v) =>
      assert k in Parts(r) && v in Parts(r);
    case Del(k) =>
    case HSet(h, f, v) =>
      assert h in Parts(r) && f in Parts(r) && v in Parts(r);
  }

  lemma {:induction false} ApplyAllShort(t: Tables, rs: seq<Record>)
    requires Short(t) && AllFit(rs)
    ensures Short(ApplyAll(t, rs))
    decreases rs
  {
    hide Short, Fits;
    if rs != [] {
      ApplyShort(t, rs[0]);
      ApplyAllShort(Apply(t, rs[0]), rs[1..]);
    }
  }

  lemma LongStays(t: Tables, r: Record)
    requires !Fits(r) && !r.Del?
    ensures !Short(Apply(t, r))
  {
    var u := Apply(t, r);
    match r
    case Set(k, v) =>
      assert k in u.strings && u.strings[k] == v;
    case HSet(h, f, v) =>
      assert h in u.hashes && f in u.hashes[h] && u.hashes[h][f] == v;
  }

  /** Behind this log, the record is read back at a restart. */
  ghost predicate Survives(rs: seq<Record>, r: Record) {
    var o := Open(MAGIC + LogOf(rs) + Encode(r));
    o.Opened? && o.tables == Apply(ApplyAll(EMPTY, rs), r)
  }

  lemma FitSurvives(rs: seq<Record>, r: Record)
    requires AllFit(rs) && Fits(r)
    ensures Survives(rs, r)
  {
    hide Open, LogOf, Encode, ApplyAll, Fits;
    LogExtends(rs, r);
    assert MAGIC + LogOf(rs + [r]) == MAGIC + LogOf(rs) + Encode(r);
    OpenRebuilds(rs + [r]);
    ApplyExtends(EMPTY, rs, r);
  }

  /** Behind any log, a Set or HSet survives a restart if and only if its strings fit their length fields. */
  lemma WriteSurvivesExactly(rs: seq<Record>, r: Record)
    requires AllFit(rs) && !r.Del?
    ensures Survives(rs, r) <==> Fits(r)
  {
    hide Open, LogOf, Encode, ApplyAll, Short, Found, Fits;
    if Fits(r) {
      FitSurvives(rs, r);
    } else {
      OpenTail(rs, Encode(r));
      LogShort(rs);
      FoundFits(Encode(r), 0);
      ApplyAllShort(ApplyAll(EMPTY, rs), Found(Encode(r), 0));
      LongStays(ApplyAll(EMPTY, rs), r);
    }
  }

  /** Every record, a Del too, survives behind all logs if and only if its strings fit. */
  lemma RecordSurvivesExactly(r: Record)
    ensures (forall rs :: AllFit(rs) ==> Survives(rs, r)) <==> Fits(r)
  {
    hide Survives, Fits, AllFit;
    if Fits(r) {
      forall rs | AllFit(rs) ensures Survives(rs, r) {
        FitSurvives(rs, r);
      }
    } else if r.Del? {
      LongDelNoticed(r);
    } else {
      NoneFit();
      WriteSurvivesExactly([], r);
    }
  }

  lemma NoneFit()
    ensures AllFit([])
  {
  }

  /** A Del of an oversized key should change nothing, but is never ignored. */
  lemma LongDelNoticed(r: Record)
    requires r.Del? && !Fits(r)
    ensures exists rs :: AllFit(rs) && !Survives(rs, r)
  {
    hide Open, LogOf, ApplyAll, Short, Found, AllFit;
    if forall rs :: AllFit(rs) ==> Survives(rs, r) {
      forall rs | AllFit(rs) ensures Open(MAGIC + LogOf(rs) + Encode(r)) ==
                                     Opened(ApplyAll(EMPTY, rs), MAGIC + LogOf(rs) + Encode(r)) {
        LogShort(rs);
        LongDelNothing(ApplyAll(EMPTY, rs), r);
        OpenTail(rs, Encode(r));
      }
      TailIgnoredExactly(Encode(r));
      FirstIsOp(r);
    }
  }

  lemma FirstIsOp(r: Record)
    ensures !OpFree(Encode(r), 0)
  {
    assert Encode(r)[0] == OpOf(r) && IsOp(Encode(r)[0]);
  }

  lemma LongDelNothing(t: Tables, r: Record)
    requires Short(t) && r.Del? && !Fits(r)
    ensures Apply(t, r) == t
  {
  }

  lemma LogShort(rs: seq<Record>)
    requires AllFit(rs)
    ensures Short(ApplyAll(EMPTY, rs))
  {
    hide ApplyAll;
    ApplyAllShort(EMPTY, rs);
  }
}
