/** The chained hash map: each key keeps the values put under it, oldest first. */
module HashMap {
  import opened Machine
  import opened GrowableList

  datatype Pair<+K, +V> = Pair(first: K, second: V)

  /** The values stored under a key in one bucket, in order. */
  ghost function Values<K, V>(bucket: seq<Pair<K, V>>, key: K): seq<V> {
    if bucket == [] then []
    else (if bucket[0].first == key then [bucket[0].second] else []) + Values(bucket[1..], key)
  }

  lemma {:induction false} ValuesConcat<K, V>(a: seq<Pair<K, V>>, b: seq<Pair<K, V>>, key: K)
    ensures Values(a + b, key) == Values(a, key) + Values(b, key)
  {
    if a == [] {
      assert a + b == b;
    } else {
      assert (a + b)[0] == a[0] && (a + b)[1..] == a[1..] + b;
      ValuesConcat(a[1..], b, key);
      var head := if a[0].first == key then [a[0].second] else [];
      assert head + (Values(a[1..], key) + Values(b, key)) == head + Values(a[1..], key) + Values(b, key);
    }
  }

  ghost predicate Absent<K, V>(bucket: seq<Pair<K, V>>, key: K) {
    forall i | 0 <= i < |bucket| :: bucket[i].first != key
  }

  lemma {:induction false} AbsentHasNoValues<K, V>(bucket: seq<Pair<K, V>>, key: K)
    ensures Values(bucket, key) == [] <==> Absent(bucket, key)
  {
    if bucket != [] {
      AbsentHasNoValues(bucket[1..], key);
      assert Absent(bucket, key) <==> bucket[0].first != key && Absent(bucket[1..], key);
    }
  }

  /** One pair of a bucket, seen from any key. */
  lemma ValuesAround<K, V>(bucket: seq<Pair<K, V>>, i: nat, k: K)
    requires i < |bucket|
    ensures Values(bucket, k) == Values(bucket[..i], k) + Values([bucket[i]], k) + Values(bucket[i + 1..], k)
  {
    var front, back := bucket[..i + 1], bucket[i + 1..];
    ValuesConcat(front, back, k);
    assert front + back == bucket;
    ValuesConcat(bucket[..i], [bucket[i]], k);
    assert bucket[..i] + [bucket[i]] == front;
  }

  lemma ValuesOfOne<K, V>(pair: Pair<K, V>, k: K)
    ensures Values([pair], k) == if pair.first == k then [pair.second] else []
  {
    assert [pair][1..] == [] && Values([pair][1..], k) == [];
  }

  /** Taking out the first pair with a key takes the oldest value of that key only. */
  lemma FirstValue<K, V>(bucket: seq<Pair<K, V>>, i: nat, key: K, k: K)
    requires i < |bucket| && bucket[i].first == key && Absent(bucket[..i], key)
    ensures Values(bucket, key) != [] && Values(bucket, key)[0] == bucket[i].second
    ensures Values(bucket[..i] + bucket[i + 1..], k) ==
      if k == key then Values(bucket, key)[1..] else Values(bucket, k)
  {
    ValuesConcat(bucket[..i], bucket[i + 1..], k);
    AbsentHasNoValues(bucket[..i], key);
    ValuesAround(bucket, i, key);
    ValuesOfOne(bucket[i], key);
    if k != key {
      ValuesAround(bucket, i, k);
      ValuesOfOne(bucket[i], k);
      assert Values(bucket[..i], k) + [] == Values(bucket[..i], k);
    }
  }

  class HashMap<K(==, !new, 0), V(0)> {
    const hash: K -> nat
    const buckets: seq<List<Pair<K, V>>>

    ghost predicate Valid()
      reads this, buckets, set b | b in buckets :: b.data
    {
      && buckets != []
      && (forall i | 0 <= i < |buckets| :: buckets[i].Valid())
      && (forall i, j | 0 <= i < j < |buckets| :: buckets[i] != buckets[j] && buckets[i].data != buckets[j].data)
    }

    function Slot(key: K): (i: nat)
      requires buckets != []
      ensures i < |buckets|
    {
      hash(key) % |buckets|
    }

    /** The values stored under a key, oldest first. */
    ghost function Queue(key: K): seq<V>
      requires Valid()
      reads this, buckets, set b | b in buckets :: b.data
    {
      Values(buckets[Slot(key)].Contents(), key)
    }

    constructor (hash: K -> nat, numBuckets: nat)
      requires 0 < numBuckets
      ensures Valid() && this.hash == hash && |buckets| == numBuckets
      ensures forall k :: Queue(k) == []
      ensures forall b | b in buckets :: fresh(b) && fresh(b.data)
    {
      this.hash := hash;
      var lists: seq<List<Pair<K, V>>> := [];
      for i := 0 to numBuckets
        invariant |lists| == i && fresh(lists)
        invariant forall k | 0 <= k < i :: lists[k].Valid() && lists[k].Contents() == [] && fresh(lists[k].data)
        invariant forall j, k | 0 <= j < k < i :: lists[j] != lists[k] && lists[j].data != lists[k].data
      {
        var list := new List<Pair<K, V>>(0);
        lists := lists + [list];
      }
      buckets := lists;
    }

    method Put(key: K, val: V)
      requires Valid()
      modifies buckets[Slot(key)], buckets[Slot(key)].data
      ensures Valid()
      ensures forall k :: Queue(k) == if k == key then old(Queue(k)) + [val] else old(Queue(k))
      ensures forall b | b in buckets :: b.data == old(b.data) || fresh(b.data)
    {
      var bucket := buckets[Slot(key)];
      ghost var before := bucket.Contents();
      bucket.PushBack(Pair(key, val));
      forall k ensures Queue(k) == if k == key then old(Queue(k)) + [val] else old(Queue(k)) {
        if Slot(k) == Slot(key) {
          ValuesConcat(before, [Pair(key, val)], k);
          ValuesOfOne(Pair(key, val), k);
        } else {
          assert buckets[Slot(k)] != bucket;
        }
      }
    }

    /** The place of the first pair with a key in its bucket. */
    method Find(key: K) returns (bucket: List<Pair<K, V>>, i: nat)
      requires Valid()
      ensures bucket == buckets[Slot(key)] && i <= bucket.size && Absent(bucket.Contents()[..i], key)
      ensures i < bucket.size ==> bucket.Contents()[i].first == key
      ensures i < bucket.size <==> Queue(key) != []
      ensures i < bucket.size ==> Queue(key)[0] == bucket.Contents()[i].second
    {
      bucket := buckets[Slot(key)];
      i := 0;
      while i < bucket.size
        invariant i <= bucket.size && Absent(bucket.Contents()[..i], key)
      {
        var pair := bucket.At(i);
        if pair.first == key {
          FirstValue(bucket.Contents(), i, key, key);
          return;
        }
        i := i + 1;
      }
      AbsentHasNoValues(bucket.Contents(), key);
      assert bucket.Contents()[..i] == bucket.Contents();
    }

    /** The oldest value of a key; nothing stands for the failed assertion. */
    method Get(key: K) returns (r: Option<V>)
      requires Valid()
      ensures r == if Queue(key) == [] then None else Some(Queue(key)[0])
    {
      var bucket, i := Find(key);
      if i < bucket.size {
        var pair := bucket.At(i);
        r := Some(pair.second);
      } else {
        r := None;
      }
    }

    method Contains(key: K) returns (r: bool)
      requires Valid()
      ensures r <==> Queue(key) != []
    {
      var bucket, i := Find(key);
      r := i < bucket.size;
    }

    /** Takes out the oldest value of a key. */
    method Remove(key: K) returns (r: Option<V>)
      requires Valid()
      modifies buckets[Slot(key)], buckets[Slot(key)].data
      ensures Valid()
      ensures r == if old(Queue(key)) == [] then None else Some(old(Queue(key))[0])
      ensures forall k :: Queue(k) == if k == key && old(Queue(k)) != [] then old(Queue(k))[1..] else old(Queue(k))
      ensures forall b | b in buckets :: b.data == old(b.data)
    {
      var bucket, i := Find(key);
      if i < bucket.size {
        ghost var before := bucket.Contents();
        var pair := bucket.At(i);
        bucket.Erase(i);
        forall k ensures Queue(k) == if k == key then old(Queue(k))[1..] else old(Queue(k)) {
          if Slot(k) == Slot(key) {
            FirstValue(before, i, key, k);
          } else {
            assert buckets[Slot(k)] != bucket;
          }
        }
        r := Some(pair.second);
      } else {
        r := None;
      }
    }
  }
}
