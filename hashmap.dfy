/**
  The hash map object: a bucket table, a pair count and a load factor. Every
  method updates the object in place, and its contract ties the new state to the
  table functions of module Buckets applied to the old state.
 */
module HashMaps {
  import opened Wrappers
  import opened Hashing
  import opened Buckets

  /** The bucket count of a map built with the default arguments, and of every cleared map. */
  const DefaultCapacity: nat := 16

  class HashMap<V> {
    var buckets: Table<V>
    var size: nat
    /** The load factor, as the fraction loadNum / loadDen; never changed after construction. */
    const loadNum: int
    const loadDen: nat

    /** The object invariant: some bucket exists, the fraction is defined, and size counts the pairs. */
    ghost predicate Valid()
      reads this
    {
      |buckets| > 0 && loadDen > 0 && size == Count(buckets)
    }

    /** `new HashMap(initialCapacity, loadNum / loadDen)`: that many empty buckets. */
    constructor (initialCapacity: nat, loadNum: int, loadDen: nat)
      requires initialCapacity > 0 && loadDen > 0
      ensures Valid()
      ensures buckets == EmptyTable(initialCapacity) && size == 0
      ensures this.loadNum == loadNum && this.loadDen == loadDen
    {
      buckets := EmptyTable(initialCapacity);
      size := 0;
      this.loadNum := loadNum;
      this.loadDen := loadDen;
      EmptyTableCount<V>(initialCapacity);
    }

    /** `new HashMap()`: 16 empty buckets and load factor 0.75. */
    constructor Default()
      ensures Valid()
      ensures buckets == EmptyTable(DefaultCapacity) && size == 0
      ensures loadNum == 3 && loadDen == 4
    {
      buckets := EmptyTable(DefaultCapacity);
      size := 0;
      loadNum := 3;
      loadDen := 4;
      EmptyTableCount<V>(DefaultCapacity);
    }

    /** The bucket index of `key` against the current number of buckets. */
    method Hash(key: Key) returns (h: nat)
      requires |buckets| > 0
      ensures h < |buckets|
      ensures h == RollingHash(key, |buckets|)
    {
      var hashCode := 0;
      var i := 0;
      while i < |key|
        invariant 0 <= i <= |key|
        invariant hashCode == RollingHash(key[..i], |buckets|)
      {
        assert key[..i + 1][..i] == key[..i];
        hashCode := (Prime * hashCode + key[i] as int) % |buckets|;
        i := i + 1;
      }
      assert key[..i] == key;
      h := hashCode;
    }

    /**
      `set(key, value)`: overwrite the first pair with the key in its bucket, or
      append a new pair, count it, and grow when the count exceeds the load.
     */
    method Set(key: Key, value: V)
      requires Valid()
      modifies this
      ensures Valid()
      ensures buckets == Assign(old(buckets), old(size), key, value, loadNum, loadDen)
      ensures size == old(size) + (if Present(old(buckets), key) then 0 else 1)
    {
      var index := Hash(key);
      var bucket := buckets[index];
      var overwritten := false;
      var i := 0;
      while i < |bucket|
        invariant 0 <= i <= |bucket|
        invariant forall m :: 0 <= m < i ==> bucket[m].0 != key
        invariant buckets == old(buckets) && !overwritten
      {
        if bucket[i].0 == key {
          IndexOfAt(bucket, key, i);
          buckets := buckets[index := bucket[i := (key, value)]];
          assert buckets == Insert(old(buckets), key, value);
          overwritten := true;
          break;
        }
        i := i + 1;
      }

      if !overwritten {
        buckets := buckets[index := bucket + [(key, value)]];
        assert buckets == Insert(old(buckets), key, value);
        size := size + 1;
        if size * loadDen > |buckets| * loadNum {
          GrowBuckets();
        }
      }
    }

    /** `get(key)`: the value of the first pair with the key in its bucket, or None. */
    method Get(key: Key) returns (r: Option<V>)
      requires Valid()
      ensures r == Lookup(buckets, key)
    {
      var index := Hash(key);
      var bucket := buckets[index];
      var i := 0;
      while i < |bucket|
        invariant 0 <= i <= |bucket|
        invariant forall m :: 0 <= m < i ==> bucket[m].0 != key
      {
        if bucket[i].0 == key {
          IndexOfAt(bucket, key, i);
          return Some(bucket[i].1);
        }
        i := i + 1;
      }
      return None;
    }

    /** `has(key)`: whether the bucket of the key holds a pair with it, i.e. whether `get` finds one. */
    method Has(key: Key) returns (found: bool)
      requires Valid()
      ensures found == Present(buckets, key)
      ensures found == Lookup(buckets, key).Some?
    {
      var index := Hash(key);
      var bucket := buckets[index];
      var i := 0;
      while i < |bucket|
        invariant 0 <= i <= |bucket|
        invariant forall m :: 0 <= m < i ==> bucket[m].0 != key
      {
        if bucket[i].0 == key {
          return true;
        }
        i := i + 1;
      }
      return false;
    }

    /** `remove(key)`: splice out the first pair with the key in its bucket and report whether there was one. */
    method Remove(key: Key) returns (removed: bool)
      requires Valid()
      modifies this
      ensures Valid()
      ensures removed == Present(old(buckets), key)
      ensures buckets == Erase(old(buckets), key)
      ensures size == old(size) - (if removed then 1 else 0)
    {
      var index := Hash(key);
      var bucket := buckets[index];
      var i := 0;
      while i < |bucket|
        invariant 0 <= i <= |bucket|
        invariant forall m :: 0 <= m < i ==> bucket[m].0 != key
      {
        if bucket[i].0 == key {
          IndexOfAt(bucket, key, i);
          buckets := buckets[index := bucket[..i] + bucket[i + 1..]];
          assert buckets == Erase(old(buckets), key);
          size := size - 1;
          return true;
        }
        i := i + 1;
      }
      assert buckets[index := Delete(bucket, key)] == buckets;
      return false;
    }

    /** `length()`: the number of pairs stored. */
    method Length() returns (n: nat)
      requires Valid()
      ensures n == Count(buckets) && n == |Flatten(buckets)|
    {
      n := size;
    }

    /** `clear()`: 16 empty buckets, whatever the capacity the map was built with; the load factor stays. */
    method Clear()
      requires Valid()
      modifies this
      ensures Valid()
      ensures buckets == EmptyTable(DefaultCapacity) && size == 0
    {
      buckets := EmptyTable(DefaultCapacity);
      size := 0;
      EmptyTableCount<V>(DefaultCapacity);
    }

    /** `keys()`: the keys of all pairs, bucket by bucket in index order; one per stored pair. */
    method Keys() returns (ks: seq<Key>)
      requires Valid()
      ensures ks == KeysOf(Flatten(buckets))
      ensures |ks| == size
    {
      var table := buckets;
      ghost var walked: Bucket<V> := [];
      ks := [];
      var i := 0;
      assert table[..0] == [];
      while i < |table|
        invariant 0 <= i <= |table|
        invariant walked == Flatten(table[..i]) && ks == KeysOf(walked)
      {
        var bucket := table[i];
        var j := 0;
        assert walked + bucket[..0] == walked;
        while j < |bucket|
          invariant 0 <= j <= |bucket|
          invariant ks == KeysOf(walked + bucket[..j])
        {
          assert walked + bucket[..j + 1] == (walked + bucket[..j]) + [bucket[j]];
          KeysOfSnoc(walked + bucket[..j], bucket[j]);
          ks := ks + [bucket[j].0];
          j := j + 1;
        }
        FlattenStep(table, i);
        assert bucket[..j] == bucket;
        walked := walked + bucket;
        i := i + 1;
      }
      assert table[..i] == table;
    }

    /** `values()`: the values of all pairs, in the same order as `keys()`. */
    method Values() returns (vs: seq<V>)
      requires Valid()
      ensures vs == ValuesOf(Flatten(buckets))
      ensures |vs| == size
    {
      var table := buckets;
      ghost var walked: Bucket<V> := [];
      vs := [];
      var i := 0;
      assert table[..0] == [];
      while i < |table|
        invariant 0 <= i <= |table|
        invariant walked == Flatten(table[..i]) && vs == ValuesOf(walked)
      {
        var bucket := table[i];
        var j := 0;
        assert walked + bucket[..0] == walked;
        while j < |bucket|
          invariant 0 <= j <= |bucket|
          invariant vs == ValuesOf(walked + bucket[..j])
        {
          assert walked + bucket[..j + 1] == (walked + bucket[..j]) + [bucket[j]];
          ValuesOfSnoc(walked + bucket[..j], bucket[j]);
          vs := vs + [bucket[j].1];
          j := j + 1;
        }
        FlattenStep(table, i);
        assert bucket[..j] == bucket;
        walked := walked + bucket;
        i := i + 1;
      }
      assert table[..i] == table;
    }

    /** `entries()`: all pairs, bucket by bucket in index order. */
    method Entries() returns (es: seq<Pair<V>>)
      requires Valid()
      ensures es == Flatten(buckets)
      ensures |es| == size
    {
      var table := buckets;
      es := [];
      var i := 0;
      assert table[..0] == [];
      while i < |table|
        invariant 0 <= i <= |table|
        invariant es == Flatten(table[..i])
      {
        var bucket := table[i];
        var j := 0;
        ghost var walked := es;
        while j < |bucket|
          invariant 0 <= j <= |bucket|
          invariant es == walked + bucket[..j]
        {
          assert bucket[..j + 1] == bucket[..j] + [bucket[j]];
          es := es + [bucket[j]];
          j := j + 1;
        }
        FlattenStep(table, i);
        assert bucket[..j] == bucket;
        i := i + 1;
      }
      assert table[..i] == table;
    }

    /**
      `_growBuckets()`: twice as many buckets, each pair pushed, in traversal
      order, to the index its key hashes to against the OLD bucket count.
     */
    method GrowBuckets()
      requires Valid()
      modifies this
      ensures Valid()
      ensures buckets == Grow(old(buckets)) && size == old(size)
    {
      var table := buckets;
      var capacity := |table|;
      var newBuckets := EmptyTable(capacity * 2);
      ghost var walked: Bucket<V> := [];
      RegroupEmpty<V>(capacity);
      assert table[..0] == [];
      var i := 0;
      while i < |table|
        invariant buckets == table && size == old(size)
        invariant 0 <= i <= |table|
        invariant walked == Flatten(table[..i])
        invariant newBuckets == Regroup(walked, capacity)
      {
        newBuckets := PushBucket(newBuckets, walked, table[i]);
        FlattenStep(table, i);
        walked := walked + table[i];
        i := i + 1;
      }
      RegroupAll(table);
      buckets := newBuckets;
    }

    /**
      The inner loop of `_growBuckets()`: push every pair of one old bucket onto
      the new bucket its key hashes to against the current bucket count.
     */
    method PushBucket(newBuckets: Table<V>, ghost walked: Bucket<V>, bucket: Bucket<V>)
      returns (r: Table<V>)
      requires |buckets| > 0
      requires newBuckets == Regroup(walked, |buckets|)
      ensures r == Regroup(walked + bucket, |buckets|)
    {
      var capacity := |buckets|;
      r := newBuckets;
      var j := 0;
      assert walked + bucket[..j] == walked;
      while j < |bucket|
        invariant 0 <= j <= |bucket|
        invariant r == Regroup(walked + bucket[..j], capacity)
      {
        var (key, value) := bucket[j];
        var h := Hash(key);
        var newIndex := h % (capacity * 2);
        DivModUnique(h, 0, h, capacity * 2);
        RegroupExtend(walked, bucket, j, capacity);
        assert (key, value) == bucket[j];
        r := r[newIndex := r[newIndex] + [(key, value)]];
        j := j + 1;
      }
      assert bucket[..j] == bucket;
    }
  }
}
