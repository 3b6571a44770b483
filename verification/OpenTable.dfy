/** The open-addressed tables of host/knowledge_graph.c (kg_id_find/insert and kg_alias_find/insert):
    a slot holds an ordinal plus one, 0 is empty, probing is linear. The hash is any function. */
module OpenTable {

  /** The d-th slot probed from h. */
  function Probe(h: nat, d: nat, buckets: nat): nat {
    if h + d < buckets then h + d else h + d - buckets
  }

  function Home(hash: nat, buckets: nat): (h: nat)
    requires buckets > 0
    ensures h < buckets
  {
    hash % buckets
  }

  function Used(slots: seq<nat>): (n: nat)
    ensures n <= |slots|
  {
    if slots == [] then 0 else Used(slots[..|slots| - 1]) + (if slots[|slots| - 1] == 0 then 0 else 1)
  }

  /** Ordinal o stands on its probe path with no empty slot before it. */
  ghost predicate Reaches(slots: seq<nat>, h: nat, o: nat, d: nat) {
    && d < |slots| && h < |slots| && slots[Probe(h, d, |slots|)] == o + 1
    && (forall e | 0 <= e < d :: Full(slots, h, e))
  }

  predicate Full(slots: seq<nat>, h: nat, e: nat)
    requires h < |slots| && e < |slots|
  {
    slots[Probe(h, e, |slots|)] != 0
  }

  predicate Stores(slots: seq<nat>, h: nat, e: nat, o: nat)
    requires h < |slots| && e < |slots|
  {
    slots[Probe(h, e, |slots|)] == o + 1
  }

  ghost predicate Findable(slots: seq<nat>, h: nat, o: nat) {
    exists d :: Reaches(slots, h, o, d)
  }

  ghost predicate Indexed<K>(slots: seq<nat>, keys: seq<K>, hash: K -> nat) {
    && |slots| > 0 && Used(slots) == |keys|
    && (forall p | 0 <= p < |slots| :: slots[p] <= |keys|)
    && (forall i, j | 0 <= i < j < |keys| :: keys[i] != keys[j])
    && (forall o | 0 <= o < |keys| :: Findable(slots, Home(hash(keys[o]), |slots|), o))
  }

  lemma {:induction false} NoneUsed(slots: seq<nat>)
    requires forall p | 0 <= p < |slots| :: slots[p] == 0
    ensures Used(slots) == 0
  {
    if slots != [] { NoneUsed(slots[..|slots| - 1]); }
  }

  lemma {:induction false} AllUsed(slots: seq<nat>)
    requires forall p | 0 <= p < |slots| :: slots[p] != 0
    ensures Used(slots) == |slots|
  {
    if slots != [] { AllUsed(slots[..|slots| - 1]); }
  }

  lemma {:induction false} UsedUpdate(slots: seq<nat>, p: nat, v: nat)
    requires p < |slots| && slots[p] == 0 && v != 0
    ensures Used(slots[p := v]) == Used(slots) + 1
  {
    var n := |slots| - 1;
    if p < n {
      UsedUpdate(slots[..n], p, v);
      assert slots[p := v][..n] == slots[..n][p := v];
    } else {
      assert slots[p := v][..n] == slots[..n];
    }
  }

  /** Every slot is on every probe path. */
  lemma Reached(h: nat, p: nat, buckets: nat) returns (d: nat)
    requires h < buckets && p < buckets
    ensures d < buckets && Probe(h, d, buckets) == p
  {
    d := if p >= h then p - h else p + buckets - h;
  }

  /** An empty slot on the path of a key, or a full turn without it, proves the key absent. */
  lemma Absent<K>(slots: seq<nat>, keys: seq<K>, hash: K -> nat, key: K, d: nat)
    requires Indexed(slots, keys, hash) && d <= |slots|
    requires var h := Home(hash(key), |slots|);
             && (forall e | 0 <= e < d :: Full(slots, h, e) && keys[slots[Probe(h, e, |slots|)] - 1] != key)
             && (d < |slots| ==> !Full(slots, h, d))
    ensures key !in keys
  {
    var h := Home(hash(key), |slots|);
    forall o | 0 <= o < |keys|
      ensures keys[o] != key
    {
      if Home(hash(keys[o]), |slots|) == h { Met(slots, h, o, d); }
    }
  }

  lemma Met(slots: seq<nat>, h: nat, o: nat, d: nat)
    requires h < |slots| && Findable(slots, h, o) && d <= |slots| && (d < |slots| ==> !Full(slots, h, d))
    ensures exists e :: 0 <= e < d && Full(slots, h, e) && Stores(slots, h, e, o)
  {
    var e: nat :| Reaches(slots, h, o, e);
    assert Full(slots, h, e) && Stores(slots, h, e, o);
  }

  /** What could be found stays findable when an empty slot is filled. */
  lemma Kept(slots: seq<nat>, p: nat, v: nat, h: nat, o: nat)
    requires p < |slots| && slots[p] == 0 && v != 0 && h < |slots| && Findable(slots, h, o)
    ensures Findable(slots[p := v], h, o)
  {
    var e: nat :| Reaches(slots, h, o, e);
    var now := slots[p := v];
    forall f | 0 <= f < e
      ensures Full(now, h, f)
    {
      assert Full(slots, h, f);
    }
    assert Reaches(now, h, o, e);
  }

  /** Filling the first empty slot of its path indexes a new key and loses none. */
  lemma Inserted<K>(slots: seq<nat>, keys: seq<K>, hash: K -> nat, key: K, d: nat)
    requires Indexed(slots, keys, hash) && key !in keys && d < |slots|
    requires var h := Home(hash(key), |slots|);
             (forall e | 0 <= e < d :: Full(slots, h, e)) && !Full(slots, h, d)
    ensures var p := Probe(Home(hash(key), |slots|), d, |slots|);
            Indexed(slots[p := |keys| + 1], keys + [key], hash)
  {
    var h := Home(hash(key), |slots|);
    var p := Probe(h, d, |slots|);
    var now := slots[p := |keys| + 1];
    UsedUpdate(slots, p, |keys| + 1);
    hide Home, Probe;
    forall f | 0 <= f < d
      ensures Full(now, h, f)
    {
      assert Full(slots, h, f);
    }
    assert Reaches(now, h, |keys|, d);
    hide Findable;
    forall o | 0 <= o < |keys + [key]|
      ensures Findable(now, Home(hash((keys + [key])[o]), |now|), o)
    {
      if o < |keys| { Kept(slots, p, |keys| + 1, Home(hash(keys[o]), |slots|), o); }
    }
  }

  class Index<K(==)> {
    const hash: K -> nat
    const slots: array<nat>
    ghost var keys: seq<K>

    ghost predicate Valid()
      reads this, slots
    {
      Indexed(slots[..], keys, hash)
    }

    constructor (buckets: nat, hash: K -> nat)
      requires buckets > 0
      ensures Valid() && keys == [] && slots.Length == buckets && fresh(slots) && this.hash == hash
    {
      this.hash := hash;
      slots := new nat[buckets](_ => 0);
      keys := [];
      new;
      NoneUsed(slots[..]);
    }

    /** kg_id_find, kg_alias_find: `stored` is the entry table the ordinals point into. */
    method Find(stored: seq<K>, key: K) returns (found: bool, ordinal: nat)
      requires Valid() && stored == keys
      ensures found <==> key in keys
      ensures found ==> ordinal < |keys| && keys[ordinal] == key
    {
      var buckets := slots.Length;
      ghost var h := Home(hash(key), buckets);
      var slot := Home(hash(key), buckets);
      hide Home;
      for probe := 0 to buckets
        invariant probe < buckets ==> slot == Probe(h, probe, buckets)
        invariant forall e | 0 <= e < probe :: Full(slots[..], h, e) && keys[slots[..][Probe(h, e, buckets)] - 1] != key
      {
        var value := slots[slot];
        if value == 0 {
          Absent(slots[..], keys, hash, key, probe);
          return false, 0;
        }
        assert value == slots[..][slot] <= |keys|;
        if stored[value - 1] == key {
          return true, value - 1;
        }
        slot := if slot + 1 < buckets then slot + 1 else 0;
      }
      Absent(slots[..], keys, hash, key, buckets);
      return false, 0;
    }

    /** kg_id_insert, kg_alias_insert: it cannot fail while the table has more slots than keys. */
    method Insert(key: K, ordinal: nat) returns (ok: bool)
      requires Valid() && key !in keys && ordinal == |keys|
      modifies slots, `keys
      ensures Valid() && (|old(keys)| < slots.Length ==> ok)
      ensures keys == old(keys) + (if ok then [key] else [])
    {
      var buckets := slots.Length;
      ghost var h := Home(hash(key), buckets);
      var slot := Home(hash(key), buckets);
      hide Home, Indexed;
      assert buckets > 0 && Used(slots[..]) == |keys| by { IndexedUsed(); }
      for probe := 0 to buckets
        invariant slots[..] == old(slots[..]) && keys == old(keys) && Valid()
        invariant probe < buckets ==> slot == Probe(h, probe, buckets)
        invariant forall e | 0 <= e < probe :: Full(slots[..], h, e)
      {
        if slots[slot] == 0 {
          Inserted(slots[..], keys, hash, key, probe);
          ghost var was: seq<nat> := slots[..];
          slots[slot] := ordinal + 1;
          keys := keys + [key];
          assert slots[..] == was[slot := ordinal + 1];
          return true;
        }
        slot := if slot + 1 < buckets then slot + 1 else 0;
      }
      forall p | 0 <= p < buckets
        ensures slots[..][p] != 0
      {
        var d := Reached(h, p, buckets);
        assert Full(slots[..], h, d);
      }
      AllUsed(slots[..]);
      return false;
    }

    lemma IndexedUsed()
      requires Valid()
      ensures slots.Length > 0 && Used(slots[..]) == |keys|
    {
    }
  }
}
