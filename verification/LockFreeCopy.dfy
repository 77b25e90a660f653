/** The private copy of the lock-free store: a bucket holds references to inner hash maps, so a copy
    that shared them would let an edit reach a published bucket. */
module LockFreeCopy {
  import opened Bytes
  import opened LockFree
  import opened Tables

  class Inner {
    var fields: Fields

    constructor (fields: Fields)
      ensures this.fields == fields
    {
      this.fields := fields;
    }
  }

  class Bucket {
    var strings: map<Key, Value>
    var hashes: map<Key, Inner>

    constructor (strings: map<Key, Value>, hashes: map<Key, Inner>)
      ensures this.strings == strings && this.hashes == hashes
    {
      this.strings, this.hashes := strings, hashes;
    }

    ghost function Inners(): set<Inner>
      reads this
    {
      set h | h in hashes :: hashes[h]
    }

    /** No two hashes share an inner map. */
    ghost predicate Separate()
      reads this
    {
      forall h, g :: h in hashes && g in hashes && h != g ==> hashes[h] != hashes[g]
    }

    /** The value of a bucket. */
    ghost function View(): Tables
      reads this, Inners()
    {
      Tables(strings, map h | h in hashes :: hashes[h].fields)
    }
  }

  /** A deep copy: a new bucket with new inner maps of the same value. */
  method CloneBucket(b: Bucket) returns (c: Bucket)
    ensures fresh(c) && (forall i :: i in c.Inners() ==> fresh(i)) && c.Separate()
    ensures c.View() == b.View()
  {
    var copies: map<Key, Inner> := map[];
    var rest := b.hashes.Keys;
    while rest != {}
      invariant rest <= b.hashes.Keys && copies.Keys == b.hashes.Keys - rest
      invariant forall h :: h in copies ==> fresh(copies[h]) && copies[h].fields == b.hashes[h].fields
      invariant forall h, g :: h in copies && g in copies && h != g ==> copies[h] != copies[g]
      decreases rest
    {
      var h :| h in rest;
      var inner := new Inner(b.hashes[h].fields);
      copies := copies[h := inner];
      rest := rest - {h};
    }
    c := new Bucket(b.strings, copies);
  }

  method PutString(c: Bucket, k: Key, v: Value)
    requires c.Separate()
    modifies c
    ensures c.View() == SetString(old(c.View()), k, v)
    ensures c.Separate() && c.Inners() == old(c.Inners())
  {
    c.strings := c.strings[k := v];
  }

  method DropKey(c: Bucket, k: Key)
    requires c.Separate()
    modifies c
    ensures c.View() == Remove(old(c.View()), k)
    ensures c.Separate() && c.Inners() <= old(c.Inners())
  {
    c.strings, c.hashes := c.strings - {k}, c.hashes - {k};
  }

  ghost function AddHash(t: Tables, h: Key): Tables {
    t.(hashes := t.hashes[h := map[]])
  }

  lemma AddThenSet(t: Tables, h: Key, f: Key, v: Value)
    requires h !in t.hashes
    ensures SetField(AddHash(t, h), h, f, v) == SetField(t, h, f, v)
  {
    assert t.hashes[h := map[]][h := map[f := v]] == t.hashes[h := map[f := v]];
  }

  /** A new, empty inner map. */
  method AddInner(c: Bucket, h: Key)
    requires c.Separate() && h !in c.hashes
    modifies c
    ensures h !in old(c.View()).hashes && c.View() == AddHash(old(c.View()), h)
    ensures c.Separate() && h in c.hashes && forall i :: i in c.Inners() && i !in old(c.Inners()) ==> fresh(i)
  {
    ghost var was, v := c.hashes, c.View();
    forall g | g in was ensures was[g] in c.Inners() && v.hashes[g] == was[g].fields { }
    var inner := new Inner(map[]);
    c.hashes := c.hashes[h := inner];
    forall g | g in was ensures g in c.hashes && c.hashes[g] == was[g] && was[g].fields == v.hashes[g] { }
    assert c.View().hashes == v.hashes[h := map[]];
    forall i | i in c.Inners() && i !in old(c.Inners()) ensures i == inner {
      var g :| g in c.hashes && c.hashes[g] == i;
    }
  }

  /** One field of an inner map, in place. */
  method SetInner(c: Bucket, h: Key, f: Key, v: Value)
    requires c.Separate() && h in c.hashes
    modifies c.Inners()
    ensures c.View() == SetField(old(c.View()), h, f, v) && c.Separate() && c.Inners() == old(c.Inners())
  {
    c.hashes[h].fields := c.hashes[h].fields[f := v];
  }

  /** The edit a command makes, in place, to its private copy. */
  method Edit(c: Bucket, cmd: Cmd)
    requires c.Separate() && cmd.Writes()
    modifies c, c.Inners()
    ensures c.View() == Effect(old(c.View()), cmd) && c.Separate()
    ensures forall i :: i in c.Inners() && i !in old(c.Inners()) ==> fresh(i)
  {
    hide Bucket.View, Bucket.Inners, Bucket.Separate;
    match cmd
    case Put(k, v) => PutString(c, k, v);
    case Drop(k) => DropKey(c, k);
    case HPut(h, f, v) =>
      if h !in c.hashes {
        AddInner(c, h);
        AddThenSet(old(c.View()), h, f, v);
      }
      SetInner(c, h, f, v);
  }

  /** What a thread does between its load and its compare-and-swap: nothing that anyone else can see
      changes, and what it is about to publish is the command's effect on the bucket it loaded. */
  method Prepare(b: Bucket, cmd: Cmd) returns (c: Bucket)
    requires cmd.Writes()
    ensures fresh(c) && (forall i :: i in c.Inners() ==> fresh(i)) && c.Separate()
    ensures c.View() == Effect(b.View(), cmd)
  {
    c := CloneBucket(b);
    ghost var v := b.View();
    Edit(c, cmd);
    assert b.View() == v;
  }
}
