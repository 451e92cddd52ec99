/** The in-memory side of a paramset as `create` uses it: a name and an
    insertion-ordered mapping from parameter names to values, read with
    `paramset.keys` and `get`, changed with `set` and `name=`. Reading the
    set from its file and `save!` are storage and are not part of this
    model. */
module ParamSets {
  import opened Text

  /** An ordered mapping the way a Ruby hash keeps one: the keys in the
      order they were first inserted, and the value of each. */
  datatype Entries = Entries(keys: seq<string>, values: map<string, string>)
  {
    ghost predicate Valid() {
      Distinct(keys) && forall k :: k in values <==> k in keys
    }

    /** `hash[k]`: the value, or `nil` for a key that is not there. */
    function Get(k: string): Option<string> {
      if k in values then Some(values[k]) else None
    }

    /** `hash[k] = v`: a new key goes to the end, a key already there keeps
        its place and gets the new value. */
    function Put(k: string, v: string): (e: Entries)
      requires Valid()
      ensures e.Valid()
      ensures e.Get(k) == Some(v)
      ensures forall j :: j != k ==> e.Get(j) == Get(j)
      ensures k in keys ==> e.keys == keys
      ensures k !in keys ==> e.keys == keys + [k]
    {
      Entries(if k in keys then keys else keys + [k], values[k := v])
    }
  }

  const NoEntries := Entries([], map[])

  /** `ks[i] = vs[i]` for each `i` in turn. */
  function PutAll(e: Entries, ks: seq<string>, vs: seq<string>): (r: Entries)
    requires e.Valid() && |ks| == |vs|
    ensures r.Valid()
    decreases |ks|
  {
    if ks == [] then e
    else PutAll(e, ks[..|ks| - 1], vs[..|vs| - 1]).Put(ks[|ks| - 1], vs[|vs| - 1])
  }

  /** Writing distinct keys one after the other leaves each with its own
      value, leaves every other key as it was, and appends the new keys in
      the order they were written. */
  lemma PutAllEffect(e: Entries, ks: seq<string>, vs: seq<string>)
    requires e.Valid() && |ks| == |vs| && Distinct(ks)
    ensures forall i :: 0 <= i < |ks| ==> PutAll(e, ks, vs).Get(ks[i]) == Some(vs[i])
    ensures forall k :: k !in ks ==> PutAll(e, ks, vs).Get(k) == e.Get(k)
    ensures PutAll(e, ks, vs).keys == e.keys + Minus(ks, e.keys)
  {
    forall i | 0 <= i < |ks| ensures PutAll(e, ks, vs).Get(ks[i]) == Some(vs[i]) {
      PutAllWritten(e, ks, vs, i);
    }
    forall k | k !in ks ensures PutAll(e, ks, vs).Get(k) == e.Get(k) {
      PutAllOthers(e, ks, vs, k);
    }
    PutAllKeys(e, ks, vs);
  }

  lemma {:induction false} PutAllWritten(e: Entries, ks: seq<string>, vs: seq<string>, i: nat)
    requires e.Valid() && |ks| == |vs| && Distinct(ks) && i < |ks|
    ensures PutAll(e, ks, vs).Get(ks[i]) == Some(vs[i])
    decreases |ks|
  {
    var n := |ks| - 1;
    if i < n {
      assert ks[..n][i] == ks[i] && vs[..n][i] == vs[i];
      PutAllWritten(e, ks[..n], vs[..n], i);
    }
  }

  lemma {:induction false} PutAllOthers(e: Entries, ks: seq<string>, vs: seq<string>, k: string)
    requires e.Valid() && |ks| == |vs| && k !in ks
    ensures PutAll(e, ks, vs).Get(k) == e.Get(k)
    decreases |ks|
  {
    if ks != [] {
      var n := |ks| - 1;
      assert ks == ks[..n] + [ks[n]];
      PutAllOthers(e, ks[..n], vs[..n], k);
    }
  }

  lemma PutAllKeys(e: Entries, ks: seq<string>, vs: seq<string>)
    requires e.Valid() && |ks| == |vs| && Distinct(ks)
    ensures PutAll(e, ks, vs).keys == e.keys + Minus(ks, e.keys)
  {
    PutAllInserts(e, ks, vs);
    InsertAllMinus(e.keys, ks);
  }

  /** The keys after inserting each of `ks` in turn into `keys`. */
  function InsertAll(keys: seq<string>, ks: seq<string>): seq<string>
    decreases |ks|
  {
    if ks == [] then keys
    else
      var prev := InsertAll(keys, ks[..|ks| - 1]);
      var x := ks[|ks| - 1];
      if x in prev then prev else prev + [x]
  }

  lemma {:induction false} PutAllInserts(e: Entries, ks: seq<string>, vs: seq<string>)
    requires e.Valid() && |ks| == |vs|
    ensures PutAll(e, ks, vs).keys == InsertAll(e.keys, ks)
    decreases |ks|
  {
    if ks != [] {
      var n := |ks| - 1;
      PutAllInserts(e, ks[..n], vs[..n]);
    }
  }

  lemma {:induction false} InsertAllMinus(keys: seq<string>, ks: seq<string>)
    requires Distinct(ks)
    ensures InsertAll(keys, ks) == keys + Minus(ks, keys)
    decreases |ks|
  {
    if ks != [] {
      var n := |ks| - 1;
      var ks', x := ks[..n], ks[n];
      DistinctLast(ks);
      InsertAllMinus(keys, ks');
      assert x in keys + Minus(ks', keys) <==> x in keys;
      assert ks == ks' + [x];
      MinusSnoc(ks', x, keys);
    }
  }

  /** The last of distinct elements is not among the others, which stay distinct. */
  lemma DistinctLast(ks: seq<string>)
    requires Distinct(ks) && ks != []
    ensures Distinct(ks[..|ks| - 1]) && ks[|ks| - 1] !in ks[..|ks| - 1]
  {
    var n := |ks| - 1;
    forall i | 0 <= i < n ensures ks[..n][i] != ks[n] { assert ks[..n][i] == ks[i]; }
  }

  lemma {:induction false} MinusSnoc(a: seq<string>, x: string, b: seq<string>)
    ensures Minus(a + [x], b) == Minus(a, b) + (if x in b then [] else [x])
  {
    if a == [] {
      assert [] + [x] == [x];
    } else {
      assert (a + [x])[1..] == a[1..] + [x];
      MinusSnoc(a[1..], x, b);
    }
  }

  /** The object `create` works on, `Hygroscope::ParamSet`. */
  class ParamSet {
    var name: Option<string>
    var entries: Entries

    ghost predicate Valid()
      reads this
    {
      entries.Valid()
    }

    /** `ParamSet.new(name)`: a set named `name` holding what was read for
        it, or (with no name) an anonymous empty set. */
    constructor (name: Option<string>, loaded: Entries)
      requires loaded.Valid()
      requires name.None? ==> loaded == NoEntries
      ensures Valid() && this.name == name && entries == loaded
    {
      this.name := name;
      entries := loaded;
    }

    /** `set(key, value)` */
    method Set(key: string, value: string)
      requires Valid()
      modifies this
      ensures Valid()
      ensures entries == old(entries).Put(key, value) && name == old(name)
    {
      entries := entries.Put(key, value);
    }

    /** `name = n` */
    method SetName(n: string)
      modifies this
      ensures name == Some(n) && entries == old(entries)
    {
      name := Some(n);
    }
  }
}
