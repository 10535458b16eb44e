/** `ConcurrentMap` of concurrent_map.h without its mutexes: a fixed array of bucket maps, a
    key living in the bucket its unsigned 64-bit image selects, and the merge of all buckets
    into one ordinary map. */
module ConcurrentMaps {
  /** 2^64: `static_cast<uint64_t>` of a signed key is the key modulo this. */
  const TwoTo64: int := 0x1_0000_0000_0000_0000

  /** The bucket of `key`: `static_cast<uint64_t>(key) % bucket_count`. */
  function Route(key: int, n: nat): (b: nat)
    requires n > 0
    ensures b < n
  {
    (key % TwoTo64) % n
  }

  /** A key in the unsigned range goes to `key mod n`; a negative 64-bit key goes where
      `key + 2^64` would. */
  lemma RouteSpec(key: int, n: nat)
    requires n > 0
    ensures 0 <= key < TwoTo64 ==> Route(key, n) == key % n
    ensures -TwoTo64 <= key < 0 ==> Route(key, n) == (key + TwoTo64) % n
  {
  }

  /** For 15 buckets, as in the parallel search: id 16 shares bucket 1 with id 1, and id -1
      goes to bucket (2^64 - 1) mod 15 = 0. */
  lemma RouteExamples()
    ensures Route(1, 15) == 1 && Route(16, 15) == 1 && Route(-1, 15) == 0
  {
  }

  /** There is at least one bucket and every key is in its routed bucket. */
  ghost predicate Routed<V>(bs: seq<map<int, V>>)
  {
    && |bs| > 0
    && forall b, k :: 0 <= b < |bs| && k in bs[b] ==> Route(k, |bs|) == b
  }

  /** The keys of all buckets. */
  ghost function KeysOf<V>(bs: seq<map<int, V>>): set<int>
  {
    set b, k | 0 <= b < |bs| && k in bs[b] :: k
  }

  /** The map the buckets represent together. */
  ghost function Merged<V>(bs: seq<map<int, V>>): map<int, V>
    requires Routed(bs)
  {
    map k | k in KeysOf(bs) :: bs[Route(k, |bs|)][k]
  }

  /** A key is in the merged map exactly when it is in its own bucket. */
  lemma MergedHas<V>(bs: seq<map<int, V>>, k: int)
    requires Routed(bs)
    ensures k in Merged(bs) <==> k in bs[Route(k, |bs|)]
  {
    if k in bs[Route(k, |bs|)] {
      assert k in KeysOf(bs);
    }
  }

  /** Since a key lives only in its routed bucket, no key is in two buckets. */
  lemma BucketsDisjoint<V>(bs: seq<map<int, V>>)
    requires Routed(bs)
    ensures forall a, b, k :: 0 <= a < |bs| && 0 <= b < |bs| && k in bs[a] && k in bs[b] ==> a == b
  {
    forall a, b, k | 0 <= a < |bs| && 0 <= b < |bs| && k in bs[a] && k in bs[b] ensures a == b {
      assert Route(k, |bs|) == a;
    }
  }

  /** Storing `key` in its own bucket keeps the routing and stores it in the merged map. */
  lemma StoreInBucket<V>(bs: seq<map<int, V>>, key: int, v: V)
    requires Routed(bs)
    ensures var b := Route(key, |bs|);
      && Routed(bs[b := bs[b][key := v]])
      && Merged(bs[b := bs[b][key := v]]) == Merged(bs)[key := v]
  {
    var b := Route(key, |bs|);
    var after := bs[b := bs[b][key := v]];
    assert Routed(after);
    forall k ensures k in Merged(after) <==> k in Merged(bs)[key := v] {
      MergedHas(bs, k);
      MergedHas(after, k);
    }
    assert Merged(after).Keys == Merged(bs)[key := v].Keys;
    forall k | k in Merged(after) ensures Merged(after)[k] == Merged(bs)[key := v][k] {
      MergedHas(bs, k);
    }
  }

  class ConcurrentMap<V> {
    /** `all_maps`, without the mutex of each bucket. */
    const buckets: array<map<int, V>>

    /** `Value()`, the value a missing key starts from. */
    const zero: V

    /** The map the buckets represent together. */
    ghost var contents: map<int, V>

    ghost predicate Valid()
      reads this, buckets
    {
      Routed(buckets[..]) && contents == Merged(buckets[..])
    }

    /** `ConcurrentMap(bucket_count)`: that many empty buckets. */
    constructor(bucketCount: nat, zero: V)
      requires bucketCount > 0
      ensures Valid() && fresh(buckets) && buckets.Length == bucketCount
      ensures this.zero == zero && contents == map[]
    {
      buckets := new map<int, V>[bucketCount](_ => map[]);
      this.zero := zero;
      contents := map[];
      new;
      assert KeysOf(buckets[..]) == {};
    }

    /** `operator[]`: the key's bucket gains the key with `Value()` when it is missing; an
        existing value is kept. The value now stored is returned, standing for the reference
        `ref_to_value`. No other bucket changes. */
    method Access(key: int) returns (value: V)
      requires Valid()
      modifies this, buckets
      ensures Valid()
      ensures contents == if key in old(contents) then old(contents) else old(contents)[key := zero]
      ensures value == if key in old(contents) then old(contents)[key] else zero
      ensures forall b :: 0 <= b < buckets.Length && b != Route(key, buckets.Length) ==> buckets[b] == old(buckets[b])
    {
      var b := Route(key, buckets.Length);
      MergedHas(buckets[..], key);
      if key in buckets[b] {
        value := buckets[b][key];
      } else {
        StoreInBucket(buckets[..], key, zero);
        buckets[b] := buckets[b][key := zero];
        value := zero;
        contents := contents[key := zero];
      }
    }

    /** A write through `ref_to_value`: only that key's value, in its own bucket, changes. */
    method Write(key: int, value: V)
      requires Valid() && key in contents
      modifies this, buckets
      ensures Valid()
      ensures contents == old(contents)[key := value]
      ensures forall b :: 0 <= b < buckets.Length && b != Route(key, buckets.Length) ==> buckets[b] == old(buckets[b])
    {
      var b := Route(key, buckets.Length);
      StoreInBucket(buckets[..], key, value);
      buckets[b] := buckets[b][key := value];
      contents := contents[key := value];
    }

    /** `BuildOrdinaryMap`: each bucket in turn is inserted into the result (an insert keeps
        a key already present); the result is the map of all buckets, and no bucket changes. */
    method BuildOrdinaryMap() returns (result: map<int, V>)
      requires Valid()
      ensures result == contents
    {
      result := map[];
      var numb := 0;
      while numb != buckets.Length
        invariant 0 <= numb <= buckets.Length
        invariant forall k :: k in result <==> exists b :: 0 <= b < numb && k in buckets[b]
        invariant forall k :: k in result ==> result[k] == buckets[Route(k, buckets.Length)][k]
      {
        result := buckets[numb] + result;
        numb := numb + 1;
      }
      forall k ensures k in result <==> k in contents {
        MergedHas(buckets[..], k);
      }
    }
  }
}
