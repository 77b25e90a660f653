/** The Bitcask store: two maps in memory and an append-only log they can be rebuilt from. */
module Bitcask {
  import opened Bytes
  import opened Tables
  import opened Wire

  const MAGIC: seq<byte> := [70, 67, 66, 84, 48, 49]  // "FCBT01"
  const OP_SET: byte := 83   // 'S'
  const OP_DEL: byte := 68   // 'D'
  const OP_HSET: byte := 72  // 'H'

  datatype Record = Set(key: Key, value: Value) | Del(key: Key) | HSet(hash: Key, field: Key, value: Value)

  function Apply(t: Tables, r: Record): Tables {
    match r
    case Set(k, v) => SetString(t, k, v)
    case Del(k) => Remove(t, k)
    case HSet(h, f, v) => SetField(t, h, f, v)
  }

  function Parts(r: Record): seq<seq<byte>> {
    match r
    case Set(k, v) => [k, v]
    case Del(k) => [k]
    case HSet(h, f, v) => [h, f, v]
  }

  function OpOf(r: Record): byte {
    match r
    case Set(_, _) => OP_SET
    case Del(_) => OP_DEL
    case HSet(_, _, _) => OP_HSET
  }

  function PutAll(parts: seq<seq<byte>>): seq<byte> {
    if parts == [] then [] else PutString(parts[0]) + PutAll(parts[1..])
  }

  function Encode(r: Record): seq<byte> {
    [OpOf(r)] + PutAll(Parts(r))
  }

  ghost predicate Fits(r: Record) {
    forall p :: p in Parts(r) ==> |p| < TWO32
  }

  ghost predicate AllFit(rs: seq<Record>) {
    forall r :: r in rs ==> Fits(r)
  }

  // ----- recovery

  datatype Cursor = Cursor(s: seq<byte>, pos: nat)

  /** A string at a position. A length that is cut off is not consumed; of a string
      that is cut off only the length is. */
  function StringAt(file: seq<byte>, pos: nat): (c: Cursor)
    requires pos <= |file|
    ensures pos <= c.pos <= |file|
  {
    if pos + 4 > |file| then Cursor([], pos)
    else
      var len := Get32(file[pos..]);
      if len == 0 || pos + 4 + len > |file| then Cursor([], pos + 4)
      else Cursor(file[pos + 4..pos + 4 + len], pos + 4 + len)
  }

  datatype Entry = Entry(rec: seq<Record>, pos: nat)

  /** The record at a position, if its first byte is known, and the position after it. */
  function EntryAt(file: seq<byte>, pos: nat): (e: Entry)
    requires pos < |file|
    ensures pos < e.pos <= |file|
  {
    var op, a := file[pos], StringAt(file, pos + 1);
    if op == OP_SET then
      var b := StringAt(file, a.pos);
      Entry([Set(a.s, b.s)], b.pos)
    else if op == OP_DEL then Entry([Del(a.s)], a.pos)
    else if op == OP_HSET then
      var b := StringAt(file, a.pos);
      var c := StringAt(file, b.pos);
      Entry([HSet(a.s, b.s, c.s)], c.pos)
    else Entry([], pos + 1)
  }

  function ApplyAll(t: Tables, rs: seq<Record>): Tables
    decreases rs
  {
    if rs == [] then t else ApplyAll(Apply(t, rs[0]), rs[1..])
  }

  function RecoverFrom(file: seq<byte>, pos: nat, t: Tables): Tables
    requires pos <= |file|
    decreases |file| - pos
  {
    if pos == |file| then t
    else
      var e := EntryAt(file, pos);
      RecoverFrom(file, e.pos, ApplyAll(t, e.rec))
  }

  datatype Opened = BadFile | Opened(tables: Tables, file: seq<byte>)

  /** Opening a file: an empty one gets the magic, any other must start with it. */
  function Open(file: seq<byte>): Opened {
    if file == [] then Opened(EMPTY, MAGIC)
    else if |file| < |MAGIC| || file[..|MAGIC|] != MAGIC then BadFile
    else Opened(RecoverFrom(file, |MAGIC|, EMPTY), file)
  }

  // ----- what was written is recovered

  lemma StringBack(pre: seq<byte>, s: seq<byte>, rest: seq<byte>)
    requires |s| < TWO32
    ensures StringAt(pre + PutString(s) + rest, |pre|) == Cursor(s, |pre| + 4 + |s|)
  {
    hide Put32, Get32;
    var file := pre + PutString(s) + rest;
    assert file[|pre|..] == Put32(|s|) + (s + rest);
    Whole32(|s|, s + rest);
    assert file == (pre + Put32(|s|)) + (s + rest);
    Slices(pre + Put32(|s|), s, rest);
  }

  /** Strings one after the other. */
  lemma TwoBack(pre: seq<byte>, s: seq<byte>, s': seq<byte>, rest: seq<byte>)
    requires |s| < TWO32 && |s'| < TWO32
    ensures var file := pre + PutString(s) + PutString(s') + rest;
            && StringAt(file, |pre|) == Cursor(s, |pre| + 4 + |s|)
            && StringAt(file, |pre| + 4 + |s|) == Cursor(s', |pre| + 4 + |s| + 4 + |s'|)
  {
    hide StringAt, PutString;
    var file := pre + PutString(s) + PutString(s') + rest;
    assert file == pre + PutString(s) + (PutString(s') + rest);
    StringBack(pre, s, PutString(s') + rest);
    StringBack(pre + PutString(s), s', rest);
  }

  lemma PutCons(p: seq<byte>, ps: seq<seq<byte>>)
    ensures PutAll([p] + ps) == PutString(p) + PutAll(ps)
  {
    assert ([p] + ps)[1..] == ps;
  }

  lemma PutParts(r: Record)
    ensures PutAll(Parts(r)) == match r
                                case Set(k, v) => PutString(k) + PutString(v)
                                case Del(k) => PutString(k)
                                case HSet(h, f, v) => PutString(h) + PutString(f) + PutString(v)
  {
    hide PutString;
    assert PutAll([]) == [];
    match r
    case Set(k, v) =>
      PutCons(v, []);
      PutCons(k, [v]);
      assert [k] + [v] == [k, v];
    case Del(k) =>
      PutCons(k, []);
    case HSet(h, f, v) =>
      PutCons(v, []);
      PutCons(f, [v]);
      PutCons(h, [f, v]);
      assert [f] + [v] == [f, v] && [h] + [f, v] == [h, f, v];
  }

  lemma DelBack(head: seq<byte>, k: Key, rest: seq<byte>)
    requires |k| < TWO32 && head != [] && head[|head| - 1] == OP_DEL
    ensures EntryAt(head + PutString(k) + rest, |head| - 1) == Entry([Del(k)], |head| + |PutString(k)|)
  {
    hide StringAt;
    StringBack(head, k, rest);
    assert (head + PutString(k) + rest)[|head| - 1] == OP_DEL;
  }

  lemma SetBack(head: seq<byte>, k: Key, v: Value, rest: seq<byte>)
    requires |k| < TWO32 && |v| < TWO32 && head != [] && head[|head| - 1] == OP_SET
    ensures EntryAt(head + PutString(k) + PutString(v) + rest, |head| - 1)
         == Entry([Set(k, v)], |head| + |PutString(k)| + |PutString(v)|)
  {
    hide StringAt;
    TwoBack(head, k, v, rest);
    assert (head + PutString(k) + PutString(v) + rest)[|head| - 1] == OP_SET;
  }

  lemma HSetBack(head: seq<byte>, h: Key, f: Key, v: Value, rest: seq<byte>)
    requires |h| < TWO32 && |f| < TWO32 && |v| < TWO32 && head != [] && head[|head| - 1] == OP_HSET
    ensures EntryAt(head + PutString(h) + PutString(f) + PutString(v) + rest, |head| - 1)
         == Entry([HSet(h, f, v)], |head| + |PutString(h)| + |PutString(f)| + |PutString(v)|)
  {
    hide StringAt, Put32;
    var file := head + PutString(h) + PutString(f) + PutString(v) + rest;
    assert file == head + PutString(h) + PutString(f) + (PutString(v) + rest);
    TwoBack(head, h, f, PutString(v) + rest);
    StringBack(head + PutString(h) + PutString(f), v, rest);
    assert file[|head| - 1] == OP_HSET;
  }

  /** Where the parts of a record stand in a file. */
  lemma PartsStand(pre: seq<byte>, r: Record, parts: seq<byte>, rest: seq<byte>)
    requires parts == PutAll(Parts(r))
    ensures pre + Encode(r) + rest == (pre + [OpOf(r)]) + parts + rest && |Encode(r)| == 1 + |parts|
  {
    hide PutAll;
  }

  lemma DelEntry(pre: seq<byte>, k: Key, rest: seq<byte>)
    requires |k| < TWO32
    ensures EntryAt(pre + Encode(Del(k)) + rest, |pre|) == Entry([Del(k)], |pre| + |Encode(Del(k))|)
  {
    hide StringAt, EntryAt, PutString, PutAll, Encode;
    PutParts(Del(k));
    PartsStand(pre, Del(k), PutString(k), rest);
    DelBack(pre + [OP_DEL], k, rest);
  }

  lemma SetEntry(pre: seq<byte>, k: Key, v: Value, rest: seq<byte>)
    requires |k| < TWO32 && |v| < TWO32
    ensures EntryAt(pre + Encode(Set(k, v)) + rest, |pre|) == Entry([Set(k, v)], |pre| + |Encode(Set(k, v))|)
  {
    hide StringAt, EntryAt, PutString, PutAll, Encode;
    var head, parts := pre + [OP_SET], PutString(k) + PutString(v);
    PutParts(Set(k, v));
    PartsStand(pre, Set(k, v), parts, rest);
    SetBack(head, k, v, rest);
    assert head + parts == head + PutString(k) + PutString(v);
  }

  lemma HSetEntry(pre: seq<byte>, h: Key, f: Key, v: Value, rest: seq<byte>)
    requires |h| < TWO32 && |f| < TWO32 && |v| < TWO32
    ensures EntryAt(pre + Encode(HSet(h, f, v)) + rest, |pre|)
         == Entry([HSet(h, f, v)], |pre| + |Encode(HSet(h, f, v))|)
  {
    hide StringAt, EntryAt, PutString, PutAll, Encode;
    var head, parts := pre + [OP_HSET], PutString(h) + PutString(f) + PutString(v);
    PutParts(HSet(h, f, v));
    PartsStand(pre, HSet(h, f, v), parts, rest);
    HSetBack(head, h, f, v, rest);
    assert head + parts == head + PutString(h) + PutString(f) + PutString(v);
  }

  lemma EntryBack(pre: seq<byte>, r: Record, rest: seq<byte>)
    requires Fits(r)
    ensures EntryAt(pre + Encode(r) + rest, |pre|) == Entry([r], |pre| + |Encode(r)|)
  {
    hide EntryAt, Encode;
    match r
    case Del(k) =>
      assert k in Parts(r);
      DelEntry(pre, k, rest);
    case Set(k, v) =>
      assert k in Parts(r) && v in Parts(r);
      SetEntry(pre, k, v, rest);
    case HSet(h, f, v) =>
      assert h in Parts(r) && f in Parts(r) && v in Parts(r);
      HSetEntry(pre, h, f, v, rest);
  }

  ghost function LogOf(rs: seq<Record>): seq<byte> {
    if rs == [] then [] else Encode(rs[0]) + LogOf(rs[1..])
  }

  /** Whole records are applied in order, whatever comes after them. */
  lemma {:induction false} Resume(pre: seq<byte>, rs: seq<Record>, rest: seq<byte>, t: Tables)
    requires AllFit(rs)
    ensures var file := pre + LogOf(rs) + rest;
            RecoverFrom(file, |pre|, t) == RecoverFrom(file, |pre + LogOf(rs)|, ApplyAll(t, rs))
    decreases rs
  {
    hide EntryAt, Encode;
    var file := pre + LogOf(rs) + rest;
    if rs != [] {
      var r, more := rs[0], LogOf(rs[1..]) + rest;
      EntryBack(pre, r, more);
      assert file == pre + Encode(r) + more;
      assert file == (pre + Encode(r)) + LogOf(rs[1..]) + rest;
      EncodeSome(r);
      assert ApplyAll(t, [r]) == Apply(t, r) by { assert [r][1..] == []; }
      Resume(pre + Encode(r), rs[1..], rest, Apply(t, r));
    }
  }

  lemma EncodeSome(r: Record)
    ensures |Encode(r)| > 0
  {
  }

  /** Opening a log of whole records rebuilds exactly what the records say. */
  lemma OpenRebuilds(rs: seq<Record>)
    requires AllFit(rs)
    ensures Open(MAGIC + LogOf(rs)) == Opened(ApplyAll(EMPTY, rs), MAGIC + LogOf(rs))
  {
    Resume(MAGIC, rs, [], EMPTY);
    assert MAGIC + LogOf(rs) + [] == MAGIC + LogOf(rs);
    assert (MAGIC + LogOf(rs))[..|MAGIC|] == MAGIC;
  }

  lemma {:induction false} LogExtends(rs: seq<Record>, r: Record)
    ensures LogOf(rs + [r]) == LogOf(rs) + Encode(r)
  {
    hide Encode;
    if rs == [] {
      assert [r][1..] == [] && LogOf([r]) == Encode(r) + LogOf([]);
    } else {
      assert (rs + [r])[1..] == rs[1..] + [r];
      LogExtends(rs[1..], r);
    }
  }

  lemma {:induction false} ApplyExtends(t: Tables, rs: seq<Record>, r: Record)
    ensures ApplyAll(t, rs + [r]) == Apply(ApplyAll(t, rs), r)
    decreases rs
  {
    if rs == [] {
      assert [r][1..] == [];
    } else {
      assert (rs + [r])[1..] == rs[1..] + [r];
      ApplyExtends(Apply(t, rs[0]), rs[1..], r);
    }
  }

  // ----- the store

  class BitcaskStore {
    var file: seq<byte>
    var strings: map<Key, Value>
    var hashes: map<Key, Fields>
    /** The records in the file, in order. */
    ghost var records: seq<Record>

    function Now(): Tables
      reads this
    {
      Tables(strings, hashes)
    }

    /** The file is the magic and the records, and the maps are what the records say. */
    ghost predicate Valid()
      reads this
    {
      file == MAGIC + LogOf(records) && Now() == ApplyAll(EMPTY, records)
    }

    /** A new store on an empty file. */
    constructor ()
      ensures Valid() && Now() == EMPTY && records == []
    {
      file, strings, hashes, records := MAGIC, map[], map[], [];
    }

    /** A store on the file another one left behind. */
    constructor Reopen(content: seq<byte>, ghost rs: seq<Record>)
      requires content == MAGIC + LogOf(rs) && AllFit(rs)
      ensures Valid() && Now() == ApplyAll(EMPTY, rs) && records == rs
    {
      OpenRebuilds(rs);
      var o := Recover(content);
      file, strings, hashes, records := o.file, o.tables.strings, o.tables.hashes, rs;
    }

    /** Replays any file; the position only moves forward and never past the end. */
    static method Recover(content: seq<byte>) returns (o: Opened)
      ensures o == Open(content)
    {
      if |content| == 0 {
        return Opened(EMPTY, MAGIC);
      }
      if |content| < |MAGIC| || content[..|MAGIC|] != MAGIC {
        return BadFile;
      }
      var t, pos := EMPTY, |MAGIC|;
      while pos < |content|
        invariant |MAGIC| <= pos <= |content|
        invariant RecoverFrom(content, pos, t) == RecoverFrom(content, |MAGIC|, EMPTY)
        decreases |content| - pos
      {
        var op := content[pos];
        ghost var e := EntryAt(content, pos);
        ghost var t0 := t;
        var a := StringAt(content, pos + 1);
        if op == OP_SET {
          var b := StringAt(content, a.pos);
          pos := b.pos;
          t := t.(strings := t.strings[a.s := b.s]);
        } else if op == OP_DEL {
          pos := a.pos;
          t := Tables(t.strings - {a.s}, t.hashes - {a.s});
        } else if op == OP_HSET {
          var b := StringAt(content, a.pos);
          var c := StringAt(content, b.pos);
          pos := c.pos;
          var m := if a.s in t.hashes then t.hashes[a.s] else map[];
          t := t.(hashes := t.hashes[a.s := m[b.s := c.s]]);
        } else {
          pos := pos + 1;
        }
        assert pos == e.pos && t == ApplyAll(t0, e.rec) by {
          assert e.rec != [] ==> e.rec[1..] == [];
        }
      }
      return Opened(t, content);
    }

    /** `writeOp`: appends an operation and its length-prefixed parts. */
    method WriteOp(op: byte, parts: seq<seq<byte>>)
      modifies this`file
      ensures file == old(file) + [op] + PutAll(parts)
    {
      hide PutString;
      var buf := [op];
      for i := 0 to |parts|
        invariant buf + PutAll(parts[i..]) == [op] + PutAll(parts)
      {
        assert parts[i..][1..] == parts[i + 1..];
        assert buf + PutAll(parts[i..]) == buf + PutString(parts[i]) + PutAll(parts[i + 1..]);
        buf := buf + PutString(parts[i]);
      }
      assert buf == [op] + PutAll(parts);
      file := file + buf;
    }

    /** The log grows by the record the maps were updated with. */
    method Append(ghost r: Record, op: byte, parts: seq<seq<byte>>)
      requires op == OpOf(r) && parts == Parts(r)
      requires file == MAGIC + LogOf(records) && Now() == ApplyAll(EMPTY, records + [r])
      modifies this`file, this`records
      ensures Valid() && records == old(records) + [r]
    {
      hide LogOf, PutAll, ApplyAll;
      WriteOp(op, parts);
      LogExtends(records, r);
      records := records + [r];
    }

    method DoSet(key: Key, value: Value)
      requires Valid()
      modifies this
      ensures Valid() && Now() == Apply(old(Now()), Set(key, value)) && records == old(records) + [Set(key, value)]
      ensures strings == old(strings)[key := value] && hashes == old(hashes)
    {
      ApplyExtends(EMPTY, records, Set(key, value));
      strings := strings[key := value];
      Append(Set(key, value), OP_SET, [key, value]);
    }

    method DoDel(key: Key)
      requires Valid()
      modifies this
      ensures Valid() && Now() == Apply(old(Now()), Del(key)) && records == old(records) + [Del(key)]
      ensures strings == old(strings) - {key} && hashes == old(hashes) - {key}
    {
      ApplyExtends(EMPTY, records, Del(key));
      strings, hashes := strings - {key}, hashes - {key};
      Append(Del(key), OP_DEL, [key]);
    }

    method DoHSet(hash: Key, field: Key, value: Value)
      requires Valid()
      modifies this
      ensures Valid() && Now() == Apply(old(Now()), HSet(hash, field, value))
      ensures records == old(records) + [HSet(hash, field, value)] && strings == old(strings)
      ensures hashes == old(hashes)[hash := (if hash in old(hashes) then old(hashes)[hash] else map[])[field := value]]
    {
      ApplyExtends(EMPTY, records, HSet(hash, field, value));
      var m := if hash in hashes then hashes[hash] else map[];
      hashes := hashes[hash := m[field := value]];
      Append(HSet(hash, field, value), OP_HSET, [hash, field, value]);
    }

    method Do(r: Record)
      requires Valid()
      modifies this
      ensures Valid() && Now() == Apply(old(Now()), r) && records == old(records) + [r]
    {
      match r
      case Set(k, v) => DoSet(k, v);
      case Del(k) => DoDel(k);
      case HSet(h, f, v) => DoHSet(h, f, v);
    }
  }

  // ----- whole runs

  datatype Action = Do(rec: Record) | Restart

  function Records(actions: seq<Action>): seq<Record> {
    if actions == [] then []
    else
      var last := actions[|actions| - 1];
      Records(actions[..|actions| - 1]) + if last.Do? then [last.rec] else []
  }

  /** However often the store is closed and reopened along the way, it ends with what the operations say. */
  method RunWithRestarts(actions: seq<Action>) returns (t: Tables)
    requires forall i :: 0 <= i < |actions| && actions[i].Do? ==> Fits(actions[i].rec)
    ensures t == ApplyAll(EMPTY, Records(actions))
  {
    hide LogOf, ApplyAll, Fits, Apply;
    var s := new BitcaskStore();
    for i := 0 to |actions|
      invariant fresh(s) && s.Valid() && s.records == Records(actions[..i]) && AllFit(s.records)
    {
      assert actions[..i + 1][..i] == actions[..i];
      if actions[i].Restart? {
        assert Records(actions[..i]) + [] == Records(actions[..i]);
        s := new BitcaskStore.Reopen(s.file, s.records);
      } else {
        s.Do(actions[i].rec);
      }
    }
    assert actions[..|actions|] == actions;
    t := s.Now();
  }
}
