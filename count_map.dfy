/**
 * `count_map`: a map from keys to counts in which a missing key and a key
 * mapped to 0 are meant to be the same thing.  Counts are `size_t`, so an
 * increment or decrement wraps around modulo 2^64.
 *
 * The operations are specified by pure functions on the underlying map;
 * the class `CountMap` holds that map and updates it in place.
 */
module CountMaps {

  /** 2^64: counts are unsigned 64-bit integers. */
  const SizeLimit: nat := 0x1_0000_0000_0000_0000

  type Count = n: nat | n < SizeLimit

  /** No key is stored with a count of 0: "absent" and "0" coincide. */
  ghost predicate NoZeros<K(!new)>(c: map<K, Count>)
  {
    forall k :: k in c ==> c[k] != 0
  }

  /** `get`: the stored count, or 0 for a missing key. */
  function Lookup<K(!new)>(c: map<K, Count>, key: K): (n: Count)
    ensures key !in c ==> n == 0
    ensures key in c ==> n == c[key]
  {
    if key in c then c[key] else 0
  }

  /** `set` as written: a 0 for a missing key inserts nothing; a present key
      takes the new value, 0 included. */
  function Stored<K(!new)>(c: map<K, Count>, key: K, value: Count): (r: map<K, Count>)
    ensures Lookup(r, key) == value
    ensures forall k :: k != key ==> Lookup(r, k) == Lookup(c, k)
    ensures key !in c && value == 0 ==> r == c
    ensures key in c ==> r.Keys == c.Keys
    ensures key in c && value == 0 ==> !NoZeros(r)
  {
    if key !in c && value == 0 then c else c[key := value]
  }

  /** `set` as evidently intended: storing 0 erases the key, so that no key
      is ever mapped to 0. */
  function StoredErasingZero<K(!new)>(c: map<K, Count>, key: K, value: Count): (r: map<K, Count>)
    ensures Lookup(r, key) == value
    ensures forall k :: k != key ==> Lookup(r, k) == Lookup(c, k)
    ensures value == 0 ==> key !in r
    ensures NoZeros(c) ==> NoZeros(r)
  {
    if value == 0 then c - {key} else c[key := value]
  }

  /** `inc`: the new map and the count it returns. */
  function Bumped<K(!new)>(c: map<K, Count>, key: K): (r: (map<K, Count>, Count))
    ensures r.1 == (Lookup(c, key) + 1) % SizeLimit
    ensures key !in c ==> r.1 == 1
    ensures Lookup(r.0, key) == r.1
    ensures r.0.Keys == c.Keys + {key}
    ensures forall k :: k != key ==> Lookup(r.0, k) == Lookup(c, k)
    ensures NoZeros(c) && Lookup(c, key) + 1 < SizeLimit ==> NoZeros(r.0)
  {
    var n := (Lookup(c, key) + 1) % SizeLimit;
    (c[key := n], n)
  }

  /** `dec`: the new map and the count it returns.  A missing key is left
      alone; a count that reaches 0 is erased. */
  function Dropped<K(!new)>(c: map<K, Count>, key: K): (r: (map<K, Count>, Count))
    ensures key !in c ==> r == (c, 0)
    ensures Lookup(r.0, key) == r.1
    ensures r.1 == 0 ==> key !in r.0
    ensures r.0.Keys <= c.Keys
    ensures forall k :: k != key ==> Lookup(r.0, k) == Lookup(c, k)
    ensures key in c && c[key] != 0 ==> r.1 == c[key] - 1
    ensures key in c && c[key] == 0 ==> r.1 == SizeLimit - 1
    ensures NoZeros(c) ==> NoZeros(r.0)
  {
    if key !in c then (c, 0)
    else
      var n := (c[key] + SizeLimit - 1) % SizeLimit;
      (if n == 0 then c - {key} else c[key := n], n)
  }

  /** Under the "no zeros" invariant, `inc` then `dec` on one key restores
      the whole map, and `dec` returns the count the key had before. */
  lemma IncThenDec<K(!new)>(c: map<K, Count>, key: K)
    requires NoZeros(c) && Lookup(c, key) + 1 < SizeLimit
    ensures Dropped(Bumped(c, key).0, key) == (c, Lookup(c, key))
  {
    var b := Bumped(c, key).0;
    var d := Dropped(b, key);
    if key in c {
      assert b == c[key := c[key] + 1];
      assert d.0 == b[key := c[key]];
      assert d.0 == c;
    } else {
      assert b == c[key := 1];
      assert d.0 == b - {key};
      assert d.0 == c;
    }
  }

  /** As written, `set(k, 1); set(k, 0)` leaves `k` stored with 0, and a
      following `dec(k)` wraps the count around to 2^64 - 1 instead of
      treating the key as missing; and `inc(k); dec(k)` no longer restores
      the set of keys. */
  lemma ZeroSetThenDecWraps<K(!new)>(key: K)
    ensures var c := Stored(Stored(map[], key, 1), key, 0);
            Lookup(c, key) == 0 && key in c &&
            Dropped(c, key).1 == SizeLimit - 1 && Lookup(Dropped(c, key).0, key) == SizeLimit - 1 &&
            key !in Dropped(Bumped(c, key).0, key).0
  {
    var c := Stored(Stored(map[], key, 1), key, 0);
    assert c == map[key := 0];
  }

  /** With the intended `set`, the same sequence leaves `dec` a no-op. */
  lemma ZeroSetThenDecErased<K(!new)>(key: K)
    ensures var c := StoredErasingZero(StoredErasingZero(map[], key, 1), key, 0);
            c == map[] && Dropped(c, key) == (c, 0)
  {
    var c := StoredErasingZero(StoredErasingZero(map[], key, 1), key, 0);
    assert key !in c;
    assert c == map[];
  }

  /** Every key and its count exactly once, in the order of `keys`. */
  ghost predicate EachEntryOnce<K(!new)>(c: map<K, Count>, keys: seq<K>, entries: seq<(K, Count)>)
  {
    |entries| == |keys| == |c| &&
    (forall i, j :: 0 <= i < j < |keys| ==> keys[i] != keys[j]) &&
    (forall i :: 0 <= i < |keys| ==> keys[i] in c && entries[i] == (keys[i], c[keys[i]])) &&
    (forall k :: k in c ==> k in keys)
  }

  class CountMap<K(==, !new)> {
    /** The underlying unordered map. */
    var container: map<K, Count>

    constructor()
      ensures container == map[]
    {
      container := map[];
    }

    /** `get` */
    function Get(key: K): (n: Count)
      reads this
    {
      Lookup(container, key)
    }

    /** `set`, as written. */
    method Set(key: K, value: Count)
      modifies this
      ensures container == Stored(old(container), key, value)
      ensures Get(key) == value
    {
      if key !in container {
        if value != 0 {
          container := container[key := value];
        }
      } else {
        container := container[key := value];
      }
    }

    /** `set` as evidently intended: storing 0 erases the key. */
    method SetErasingZero(key: K, value: Count)
      modifies this
      ensures container == StoredErasingZero(old(container), key, value)
      ensures Get(key) == value
    {
      if value == 0 {
        container := container - {key};
      } else {
        container := container[key := value];
      }
    }

    /** `inc` */
    method Inc(key: K) returns (n: Count)
      modifies this
      ensures (container, n) == Bumped(old(container), key)
      ensures Get(key) == n
    {
      if key !in container {
        container := container[key := 1];
        n := 1;
      } else {
        n := (container[key] + 1) % SizeLimit;
        container := container[key := n];
      }
    }

    /** `dec` */
    method Dec(key: K) returns (n: Count)
      modifies this
      ensures (container, n) == Dropped(old(container), key)
      ensures Get(key) == n
    {
      if key !in container {
        return 0;
      }
      n := (container[key] + SizeLimit - 1) % SizeLimit;
      if n == 0 {
        container := container - {key};
      } else {
        container := container[key := n];
      }
    }

    /** One iteration order of the unordered map: every key once. */
    method Keys() returns (keys: seq<K>)
      ensures |keys| == |container|
      ensures forall i, j :: 0 <= i < j < |keys| ==> keys[i] != keys[j]
      ensures forall i :: 0 <= i < |keys| ==> keys[i] in container
      ensures forall k :: k in container ==> k in keys
    {
      keys := [];
      ghost var seen: set<K> := {};
      var rest := container.Keys;
      while rest != {}
        invariant seen !! rest && seen + rest == container.Keys
        invariant |keys| == |seen|
        invariant forall i :: 0 <= i < |keys| ==> keys[i] in seen
        invariant forall k :: k in seen ==> k in keys
        invariant forall i, j :: 0 <= i < j < |keys| ==> keys[i] != keys[j]
        decreases |rest|
      {
        var k :| k in rest;
        keys := keys + [k];
        seen := seen + {k};
        rest := rest - {k};
      }
    }

    /** The entries at positions `first` up to `last` of the iteration
        order `keys`, visited one by one as a range-for does. */
    method Range(keys: seq<K>, first: nat, last: nat) returns (entries: seq<(K, Count)>)
      requires first <= last <= |keys|
      requires forall i :: 0 <= i < |keys| ==> keys[i] in container
      ensures |entries| == last - first
      ensures forall i :: 0 <= i < |entries| ==> entries[i] == (keys[first + i], container[keys[first + i]])
    {
      var it := first;
      entries := [];
      while it != last
        invariant first <= it <= last
        invariant |entries| == it - first
        invariant forall i :: 0 <= i < |entries| ==> entries[i] == (keys[first + i], container[keys[first + i]])
      {
        entries := entries + [(keys[it], container[keys[it]])];
        it := it + 1;
      }
    }

    /** Iteration from `begin()` to `end()` as written: `end()` returns the
        first position, so a non-empty map yields no entry at all. */
    method EntriesAsWritten() returns (entries: seq<(K, Count)>)
      ensures entries == []
      ensures |entries| < |container| <==> container != map[]
    {
      var keys := Keys();
      var begin, end := 0, 0;
      entries := Range(keys, begin, end);
    }

    /** Iteration as evidently intended, with `end()` past the last entry:
        every key with its count, once. */
    method Entries() returns (keys: seq<K>, entries: seq<(K, Count)>)
      ensures EachEntryOnce(container, keys, entries)
    {
      keys := Keys();
      entries := Range(keys, 0, |keys|);
    }
  }
}
