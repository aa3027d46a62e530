/**
  The bucket table of the hash map as a value: a sequence of buckets, each an
  ordered sequence of (key, value) pairs. Every operation of the map is specified
  here as a function of the table it starts from; the class in HashMaps is proved
  to follow these functions.
 */
module Buckets {
  import opened Wrappers
  import opened Hashing

  type Pair<V> = (Key, V)
  type Bucket<V> = seq<Pair<V>>
  type Table<V> = seq<Bucket<V>>

  /* ---------------------------------------------------------------------------
     One bucket: the linear scans of set, get, has and remove
     --------------------------------------------------------------------------- */

  /** The position of the first pair of `b` whose key is `key`: where the scans stop. */
  function IndexOf<V>(b: Bucket<V>, key: Key): (r: Option<nat>)
    ensures r.Some? ==> r.value < |b| && b[r.value].0 == key
    ensures r.Some? ==> forall j :: 0 <= j < r.value ==> b[j].0 != key
    ensures r.None? <==> forall j :: 0 <= j < |b| ==> b[j].0 != key
    decreases |b|
  {
    if b == [] then None
    else if b[0].0 == key then Some(0)
    else match IndexOf(b[1..], key)
      case None => None
      case Some(j) => Some(j + 1)
  }

  /** The first occurrence of a key is the position where it stands with no occurrence before it. */
  lemma IndexOfAt<V>(b: Bucket<V>, key: Key, j: nat)
    requires j < |b| && b[j].0 == key
    requires forall m :: 0 <= m < j ==> b[m].0 != key
    ensures IndexOf(b, key) == Some(j)
  {
  }

  /** The value `get` returns from bucket `b`: that of the first pair with the key. */
  function Find<V>(b: Bucket<V>, key: Key): (r: Option<V>)
  {
    match IndexOf(b, key)
    case None => None
    case Some(j) => Some(b[j].1)
  }

  /**
    The bucket after `set(key, value)` has scanned it: the first pair with the key
    has its value replaced where it stands, otherwise the pair is appended.
   */
  function Put<V>(b: Bucket<V>, key: Key, value: V): (r: Bucket<V>)
    ensures IndexOf(b, key).Some? ==>
              |r| == |b| && r[IndexOf(b, key).value] == (key, value)
              && forall j :: 0 <= j < |b| && j != IndexOf(b, key).value ==> r[j] == b[j]
    ensures IndexOf(b, key).None? ==> r == b + [(key, value)]
    ensures Find(r, key) == Some(value)
  {
    match IndexOf(b, key)
    case Some(j) =>
      var r := b[j := (key, value)];
      IndexOfAt(r, key, j);
      r
    case None =>
      var r := b + [(key, value)];
      IndexOfAt(r, key, |b|);
      r
  }

  /**
    The bucket after `remove(key)` has scanned it: the first pair with the key is
    spliced out and the others keep their order; without such a pair it is unchanged.
   */
  function Delete<V>(b: Bucket<V>, key: Key): (r: Bucket<V>)
    ensures IndexOf(b, key).None? ==> r == b
    ensures IndexOf(b, key).Some? ==>
              var j := IndexOf(b, key).value;
              |r| == |b| - 1
              && (forall m :: 0 <= m < j ==> r[m] == b[m])
              && (forall m :: j <= m < |r| ==> r[m] == b[m + 1])
  {
    match IndexOf(b, key)
    case None => b
    case Some(j) => b[..j] + b[j + 1..]
  }

  /** No key occurs twice in `b`. */
  predicate Distinct<V>(b: Bucket<V>)
  {
    forall i, j :: 0 <= i < j < |b| ==> b[i].0 != b[j].0
  }

  /** Setting a key keeps a bucket free of repeated keys. */
  lemma PutDistinct<V>(b: Bucket<V>, key: Key, value: V)
    requires Distinct(b)
    ensures Distinct(Put(b, key, value))
  {
    var nb := Put(b, key, value);
    forall i, j | 0 <= i < j < |nb| ensures nb[i].0 != nb[j].0 {
      if j == |b| { assert nb[i] == b[i]; }
      else { assert nb[i].0 == b[i].0 && nb[j].0 == b[j].0; }
    }
  }

  /** A key other than the one set is found in the new bucket exactly as before. */
  lemma PutOther<V>(b: Bucket<V>, key: Key, value: V, other: Key)
    requires other != key
    ensures Find(Put(b, key, value), other) == Find(b, other)
  {
    var r := Put(b, key, value);
    // every position of b keeps its key, and the pair at a position holding `other` is untouched
    assert forall m :: 0 <= m < |b| ==> r[m].0 == b[m].0;
    assert forall m :: 0 <= m < |b| && b[m].0 == other ==> r[m] == b[m];
    match IndexOf(b, other)
    case None =>
      assert forall m :: 0 <= m < |r| ==> r[m].0 != other;
    case Some(i) =>
      IndexOfAt(r, other, i);
  }

  /** A key other than the one removed is found in the new bucket exactly as before. */
  lemma DeleteOther<V>(b: Bucket<V>, key: Key, other: Key)
    requires other != key
    ensures Find(Delete(b, key), other) == Find(b, other)
  {
    match IndexOf(b, key)
    case None =>
    case Some(j) =>
      var r := Delete(b, key);
      assert r == b[..j] + b[j + 1..];
      match IndexOf(b, other)
      case None =>
        assert forall m :: 0 <= m < |r| ==> r[m].0 != other;
      case Some(i) =>
        if i < j {
          IndexOfAt(r, other, i);
        } else {
          assert i != j;
          assert r[i - 1] == b[i];
          IndexOfAt(r, other, i - 1);
        }
  }

  /** In a bucket without repeated keys, a removed key is no longer found. */
  lemma DeleteThenFind<V>(b: Bucket<V>, key: Key)
    requires Distinct(b)
    ensures Find(Delete(b, key), key) == None
  {
    match IndexOf(b, key)
    case None =>
    case Some(j) =>
      var r := Delete(b, key);
      forall m | 0 <= m < |r| ensures r[m].0 != key {
        if m < j { assert r[m] == b[m]; } else { assert r[m] == b[m + 1]; }
      }
  }

  /**
    After the first pair with a key is spliced out, the key is looked up among the
    pairs that followed it: a second pair with the key, if any, now answers.
   */
  lemma DeleteFindsRest<V>(b: Bucket<V>, key: Key)
    requires IndexOf(b, key).Some?
    ensures Find(Delete(b, key), key) == Find(b[IndexOf(b, key).value + 1..], key)
  {
    var j := IndexOf(b, key).value;
    var r, rest := Delete(b, key), b[j + 1..];
    match IndexOf(rest, key)
    case None =>
      forall m | 0 <= m < |r| ensures r[m].0 != key {
        if m < j { assert r[m] == b[m]; } else { assert r[m] == rest[m - j]; }
      }
    case Some(k) =>
      assert r[j + k] == rest[k];
      forall m | 0 <= m < j + k ensures r[m].0 != key {
        if m < j { assert r[m] == b[m]; } else { assert r[m] == rest[m - j]; }
      }
      IndexOfAt(r, key, j + k);
  }

  /** Removing the first pair with a key takes exactly that pair out of the bucket's multiset. */
  lemma DeletePermutes<V>(b: Bucket<V>, key: Key)
    requires IndexOf(b, key).Some?
    ensures multiset(Delete(b, key)) + multiset{b[IndexOf(b, key).value]} == multiset(b)
  {
    var j := IndexOf(b, key).value;
    assert Delete(b, key) == b[..j] + b[j + 1..];
    SpliceMultiset(b, j);
  }

  /** Splicing out position j takes exactly the pair there out of the multiset. */
  lemma SpliceMultiset<V>(b: Bucket<V>, j: nat)
    requires j < |b|
    ensures multiset(b[..j] + b[j + 1..]) + multiset{b[j]} == multiset(b)
  {
    var front, back := b[..j], b[j + 1..];
    assert b == front + [b[j]] + back;
    assert multiset(front + back) == multiset(front) + multiset(back);
    assert multiset(b) == multiset(front) + multiset{b[j]} + multiset(back);
  }

  /* ---------------------------------------------------------------------------
     The table: traversal, size, and placement
     --------------------------------------------------------------------------- */

  /** The total number of pairs over all buckets. */
  function Count<V>(t: Table<V>): (n: nat)
    decreases |t|
  {
    if t == [] then 0 else Count(t[..|t| - 1]) + |t[|t| - 1]|
  }

  /**
    The pairs of all buckets in bucket-index order and, within a bucket, in chain
    order: the order in which keys, values and entries traverse the table.
   */
  function Flatten<V>(t: Table<V>): (r: Bucket<V>)
    ensures |r| == Count(t)
    decreases |t|
  {
    if t == [] then [] else Flatten(t[..|t| - 1]) + t[|t| - 1]
  }

  /** The table of n empty buckets that construction and clear produce. */
  function EmptyTable<V>(n: nat): (t: Table<V>)
    ensures |t| == n && forall i :: 0 <= i < n ==> t[i] == []
  {
    seq(n, i => [])
  }

  /** The keys of a run of pairs, in order. */
  function KeysOf<V>(s: Bucket<V>): (r: seq<Key>)
    ensures |r| == |s| && forall i :: 0 <= i < |s| ==> r[i] == s[i].0
    decreases |s|
  {
    if s == [] then [] else KeysOf(s[..|s| - 1]) + [s[|s| - 1].0]
  }

  /** The values of a run of pairs, in order. */
  function ValuesOf<V>(s: Bucket<V>): (r: seq<V>)
    ensures |r| == |s| && forall i :: 0 <= i < |s| ==> r[i] == s[i].1
    decreases |s|
  {
    if s == [] then [] else ValuesOf(s[..|s| - 1]) + [s[|s| - 1].1]
  }

  /** The keys of a run extended by one pair are the old keys followed by that pair's key. */
  lemma KeysOfSnoc<V>(s: Bucket<V>, p: Pair<V>)
    ensures KeysOf(s + [p]) == KeysOf(s) + [p.0]
  {
    assert (s + [p])[..|s|] == s;
  }

  /** The values of a run extended by one pair are the old values followed by that pair's value. */
  lemma ValuesOfSnoc<V>(s: Bucket<V>, p: Pair<V>)
    ensures ValuesOf(s + [p]) == ValuesOf(s) + [p.1]
  {
    assert (s + [p])[..|s|] == s;
  }

  /** Every pair sits in the bucket its key hashes to at the table's current capacity. */
  predicate Placed<V>(t: Table<V>)
  {
    |t| > 0 &&
    forall i, j :: 0 <= i < |t| && 0 <= j < |t[i]| ==> RollingHash(t[i][j].0, |t|) == i
  }

  /** Placed, and no bucket holds a key twice: the table then behaves as a map. */
  predicate WellFormed<V>(t: Table<V>)
  {
    Placed(t) && forall i :: 0 <= i < |t| ==> Distinct(t[i])
  }

  /** Replacing one bucket changes the total by the difference of the two lengths. */
  lemma {:induction false} CountUpdate<V>(t: Table<V>, i: nat, b: Bucket<V>)
    requires i < |t|
    ensures Count(t[i := b]) == Count(t) - |t[i]| + |b|
    decreases |t|
  {
    var n := |t| - 1;
    var u := t[i := b];
    assert u[..n] == if i == n then t[..n] else t[..n][i := b];
    if i < n {
      CountUpdate(t[..n], i, b);
    }
  }

  /** Replacing one bucket changes the multiset of all pairs by exactly that bucket's change. */
  lemma {:induction false} FlattenUpdate<V>(t: Table<V>, i: nat, b: Bucket<V>)
    requires i < |t|
    ensures multiset(Flatten(t[i := b])) + multiset(t[i]) == multiset(Flatten(t)) + multiset(b)
    decreases |t|
  {
    var n := |t| - 1;
    var u := t[i := b];
    assert Flatten(u) == Flatten(u[..n]) + u[n];
    assert Flatten(t) == Flatten(t[..n]) + t[n];
    if i < n {
      assert u[..n] == t[..n][i := b];
      FlattenUpdate(t[..n], i, b);
      assert t[..n][i] == t[i];
      MultisetAddBoth(multiset(Flatten(u[..n])), multiset(t[i]), multiset(Flatten(t[..n])), multiset(b),
                      multiset(t[n]));
    } else {
      assert u[..n] == t[..n];
    }
  }

  /** Adding the same multiset to both sides of an equation between sums keeps it. */
  lemma MultisetAddBoth<T>(A: multiset<T>, B: multiset<T>, C: multiset<T>, D: multiset<T>, E: multiset<T>)
    requires A + B == C + D
    ensures (A + E) + B == (C + E) + D
  {
    forall x ensures ((A + E) + B)[x] == ((C + E) + D)[x] {
      assert (A + B)[x] == A[x] + B[x] && (C + D)[x] == C[x] + D[x];
    }
  }

  /** A table of empty buckets holds no pair. */
  lemma {:induction false} EmptyTableCount<V>(n: nat)
    ensures Count(EmptyTable<V>(n)) == 0 && Flatten(EmptyTable<V>(n)) == []
    ensures WellFormed(EmptyTable<V>(n)) <==> n > 0
    decreases n
  {
    if n > 0 {
      assert EmptyTable<V>(n)[..n - 1] == EmptyTable<V>(n - 1);
      EmptyTableCount<V>(n - 1);
    }
  }

  /** Traversing one more bucket appends its pairs. */
  lemma FlattenStep<V>(t: Table<V>, k: nat)
    requires k < |t|
    ensures Flatten(t[..k + 1]) == Flatten(t[..k]) + t[k]
  {
    assert t[..k + 1][..k] == t[..k];
  }

  /** Traversal skips empty buckets: a run of them contributes no pair. */
  lemma {:induction false} FlattenSkipEmpty<V>(t: Table<V>, lo: nat, hi: nat)
    requires lo <= hi <= |t|
    requires forall k :: lo <= k < hi ==> t[k] == []
    ensures Flatten(t[..hi]) == Flatten(t[..lo])
    decreases hi - lo
  {
    if lo < hi {
      FlattenSkipEmpty(t, lo, hi - 1);
      FlattenStep(t, hi - 1);
    }
  }

  /** Filling an empty bucket after which all buckets are empty appends its pairs to the traversal. */
  lemma FlattenFillLast<V>(t: Table<V>, i: nat, b: Bucket<V>)
    requires i < |t| && forall k :: i <= k < |t| ==> t[k] == []
    ensures Flatten(t[i := b]) == Flatten(t) + b
  {
    var u := t[i := b];
    assert u[..i] == t[..i];
    FlattenStep(u, i);
    FlattenSkipEmpty(u, i + 1, |u|);
    FlattenSkipEmpty(t, i, |t|);
    assert u[..|u|] == u && t[..|t|] == t;
  }

  /* ---------------------------------------------------------------------------
     Table-level set, get and remove, without growth
     --------------------------------------------------------------------------- */

  /** What `get(key)` returns: the first match in the bucket the key hashes to now. */
  function Lookup<V>(t: Table<V>, key: Key): (r: Option<V>)
    requires |t| > 0
  {
    Find(t[RollingHash(key, |t|)], key)
  }

  /** Whether `key` is already stored in the bucket it hashes to now. */
  predicate Present<V>(t: Table<V>, key: Key)
    requires |t| > 0
  {
    IndexOf(t[RollingHash(key, |t|)], key).Some?
  }

  /** The table after `set(key, value)`, before any growth. */
  function Insert<V>(t: Table<V>, key: Key, value: V): (r: Table<V>)
    requires |t| > 0
    ensures |r| == |t|
    ensures Count(r) == Count(t) + (if Present(t, key) then 0 else 1)
    ensures forall i :: 0 <= i < |t| && i != RollingHash(key, |t|) ==> r[i] == t[i]
  {
    var h := RollingHash(key, |t|);
    var r := t[h := Put(t[h], key, value)];
    CountUpdate(t, h, Put(t[h], key, value));
    r
  }

  /** The table after `remove(key)`. */
  function Erase<V>(t: Table<V>, key: Key): (r: Table<V>)
    requires |t| > 0
    ensures |r| == |t|
    ensures Count(r) == Count(t) - (if Present(t, key) then 1 else 0)
    ensures forall i :: 0 <= i < |t| && i != RollingHash(key, |t|) ==> r[i] == t[i]
  {
    var h := RollingHash(key, |t|);
    var r := t[h := Delete(t[h], key)];
    CountUpdate(t, h, Delete(t[h], key));
    r
  }

  /** After an insertion without growth, the key is found with the value just set. */
  lemma GetAfterInsert<V>(t: Table<V>, key: Key, value: V)
    requires |t| > 0
    ensures Lookup(Insert(t, key, value), key) == Some(value)
  {
  }

  /** An insertion does not change what any other key finds. */
  lemma GetOtherAfterInsert<V>(t: Table<V>, key: Key, value: V, other: Key)
    requires |t| > 0 && other != key
    ensures Lookup(Insert(t, key, value), other) == Lookup(t, other)
  {
    var h := RollingHash(key, |t|);
    if RollingHash(other, |t|) == h {
      PutOther(t[h], key, value, other);
    }
  }

  /**
    When the key's bucket holds no repeated key, a removed key is no longer found.
    This needs nothing of the other buckets, so it holds after growth as well.
   */
  lemma GetAfterErase<V>(t: Table<V>, key: Key)
    requires |t| > 0 && Distinct(t[RollingHash(key, |t|)])
    ensures Lookup(Erase(t, key), key) == None
  {
    DeleteThenFind(t[RollingHash(key, |t|)], key);
  }

  /**
    `remove(key)` takes out only the first pair with the key: `get(key)` then
    answers from the pairs after it, and finds a value exactly when the bucket
    held the key a second time.
   */
  lemma GetAfterEraseRepeated<V>(t: Table<V>, key: Key)
    requires |t| > 0 && Present(t, key)
    ensures var b := t[RollingHash(key, |t|)];
            var j := IndexOf(b, key).value;
            Lookup(Erase(t, key), key) == Find(b[j + 1..], key)
            && (Lookup(Erase(t, key), key).Some? <==> exists m :: j < m < |b| && b[m].0 == key)
  {
    var b := t[RollingHash(key, |t|)];
    var j := IndexOf(b, key).value;
    var rest := b[j + 1..];
    DeleteFindsRest(b, key);
    if IndexOf(rest, key).Some? {
      var k := IndexOf(rest, key).value;
      assert b[j + 1 + k] == rest[k];
    } else {
      forall m | j < m < |b| ensures b[m].0 != key {
        assert b[m] == rest[m - j - 1];
      }
    }
  }

  /** A removal does not change what any other key finds. */
  lemma GetOtherAfterErase<V>(t: Table<V>, key: Key, other: Key)
    requires |t| > 0 && other != key
    ensures Lookup(Erase(t, key), other) == Lookup(t, other)
  {
    var h := RollingHash(key, |t|);
    if RollingHash(other, |t|) == h {
      DeleteOther(t[h], key, other);
    }
  }

  /** Multiset arithmetic: from A + B == C + D and D + G == B + P follows A + G == C + P. */
  lemma MultisetCancel<T>(A: multiset<T>, B: multiset<T>, C: multiset<T>, D: multiset<T>,
                          G: multiset<T>, P: multiset<T>)
    requires A + B == C + D && D + G == B + P
    ensures A + G == C + P
  {
    forall x ensures (A + G)[x] == (C + P)[x] {
      assert (A + B)[x] == A[x] + B[x] && (C + D)[x] == C[x] + D[x];
      assert (D + G)[x] == D[x] + G[x] && (B + P)[x] == B[x] + P[x];
    }
    assert forall x :: (A + G)[x] == (C + P)[x];
  }

  /** Removing a present key takes exactly one pair out of the table. */
  lemma ErasePermutes<V>(t: Table<V>, key: Key)
    requires |t| > 0 && Present(t, key)
    ensures var b := t[RollingHash(key, |t|)];
            multiset(Flatten(Erase(t, key))) + multiset{b[IndexOf(b, key).value]}
              == multiset(Flatten(t))
  {
    var h := RollingHash(key, |t|);
    var b := t[h];
    var nb := Delete(b, key);
    var gone := multiset{b[IndexOf(b, key).value]};
    assert Erase(t, key) == t[h := nb];
    DeletePermutes(b, key);
    FlattenUpdate(t, h, nb);
    var after, before := multiset(Flatten(t[h := nb])), multiset(Flatten(t));
    assert after + multiset(b) == before + multiset(nb);
    MultisetCancel(after, multiset(b), before, multiset(nb), gone, multiset{});
  }

  /** Putting a pair into a bucket adds it, or swaps it for the first pair with its key. */
  lemma PutPermutes<V>(b: Bucket<V>, key: Key, value: V)
    ensures multiset(Put(b, key, value))
            + (match IndexOf(b, key) case Some(j) => multiset{b[j]} case None => multiset{})
            == multiset(b) + multiset{(key, value)}
  {
    match IndexOf(b, key)
    case None =>
      assert Put(b, key, value) == b + [(key, value)];
    case Some(j) =>
      assert b == b[..j] + [b[j]] + b[j + 1..];
      assert Put(b, key, value) == b[..j] + [(key, value)] + b[j + 1..];
  }

  /** Setting a key adds its pair, or swaps the old pair of that key for the new one. */
  lemma InsertPermutes<V>(t: Table<V>, key: Key, value: V)
    requires |t| > 0
    ensures var b := t[RollingHash(key, |t|)];
            multiset(Flatten(Insert(t, key, value)))
              + (if Present(t, key) then multiset{b[IndexOf(b, key).value]} else multiset{})
            == multiset(Flatten(t)) + multiset{(key, value)}
  {
    var h := RollingHash(key, |t|);
    var b := t[h];
    var nb := Put(b, key, value);
    var gone := if Present(t, key) then multiset{b[IndexOf(b, key).value]} else multiset{};
    assert Insert(t, key, value) == t[h := nb];
    FlattenUpdate(t, h, nb);
    PutPermutes(b, key, value);
    var after, before := multiset(Flatten(t[h := nb])), multiset(Flatten(t));
    assert after + multiset(b) == before + multiset(nb);
    MultisetCancel(after, multiset(b), before, multiset(nb), gone, multiset{(key, value)});
  }

  /** Insertion keeps a table placed. */
  lemma InsertPlaced<V>(t: Table<V>, key: Key, value: V)
    requires Placed(t)
    ensures Placed(Insert(t, key, value))
  {
    var h := RollingHash(key, |t|);
    var b := t[h];
    var r := Insert(t, key, value);
    var nb := Put(b, key, value);
    assert r[h] == nb;
    forall i, j | 0 <= i < |r| && 0 <= j < |r[i]| ensures RollingHash(r[i][j].0, |r|) == i {
      if i == h && j < |b| {
        assert nb[j].0 == b[j].0;
      }
    }
  }

  /** Insertion keeps a table well formed. */
  lemma InsertWellFormed<V>(t: Table<V>, key: Key, value: V)
    requires WellFormed(t)
    ensures WellFormed(Insert(t, key, value))
  {
    var h := RollingHash(key, |t|);
    var r := Insert(t, key, value);
    InsertPlaced(t, key, value);
    PutDistinct(t[h], key, value);
    assert r[h] == Put(t[h], key, value);
  }

  /** Removal keeps a table well formed. */
  lemma EraseWellFormed<V>(t: Table<V>, key: Key)
    requires WellFormed(t)
    ensures WellFormed(Erase(t, key))
  {
    var h := RollingHash(key, |t|);
    var b := t[h];
    var r := Erase(t, key);
    var nb := Delete(b, key);
    match IndexOf(b, key)
    case None =>
    case Some(k) =>
      assert r[h] == nb;
      assert forall m :: 0 <= m < |nb| ==> nb[m] == b[if m < k then m else m + 1];
      forall i, j | 0 <= i < |r| && 0 <= j < |r[i]| ensures RollingHash(r[i][j].0, |r|) == i {
        if i == h {
          assert nb[j] == b[if j < k then j else j + 1];
        }
      }
      assert Distinct(nb) by {
        forall i, j | 0 <= i < j < |nb| ensures nb[i].0 != nb[j].0 {
          assert nb[i] == b[if i < k then i else i + 1];
          assert nb[j] == b[if j < k then j else j + 1];
        }
      }
  }

  /* ---------------------------------------------------------------------------
     Growth
     --------------------------------------------------------------------------- */

  /**
    The pairs of `s`, in order, whose key hashes to `i` against `capacity`
    buckets: what growth pushes into new bucket `i`.
   */
  function Select<V>(s: Bucket<V>, i: nat, capacity: nat): (r: Bucket<V>)
    requires capacity > 0
    ensures i >= capacity ==> r == []
    decreases |s|
  {
    if s == [] then []
    else
      var last := s[|s| - 1];
      Select(s[..|s| - 1], i, capacity) + (if RollingHash(last.0, capacity) == i then [last] else [])
  }

  /** A pair is selected for index i exactly when it occurs in the run and its key hashes to i. */
  lemma {:induction false} SelectMembers<V>(s: Bucket<V>, i: nat, capacity: nat, p: Pair<V>)
    requires capacity > 0
    ensures p in Select(s, i, capacity) <==> p in s && RollingHash(p.0, capacity) == i
    decreases |s|
  {
    if s == [] {
      return;
    }
    var s', last := s[..|s| - 1], s[|s| - 1];
    assert s == s' + [last];
    SelectMembers(s', i, capacity, p);
  }

  /** New bucket i of a table grown from pairs `s` holds, in order, those that hash to i. */
  function Regroup<V>(s: Bucket<V>, capacity: nat): (r: Table<V>)
    requires capacity > 0
    ensures |r| == 2 * capacity
    ensures forall i :: 0 <= i < 2 * capacity ==> r[i] == Select(s, i, capacity)
  {
    seq(2 * capacity, i requires 0 <= i < 2 * capacity => Select(s, i, capacity))
  }

  /**
    The table after `_growBuckets`: twice as many buckets, filled by walking the
    pairs in traversal order and appending each to the bucket its key hashes to
    against the OLD capacity.
   */
  function Grow<V>(t: Table<V>): (r: Table<V>)
    requires |t| > 0
    ensures |r| == 2 * |t|
  {
    Regroup(Flatten(t), |t|)
  }

  /** Whether a `set` that adds a new pair to a table holding `size` pairs grows it:
      the new size exceeds capacity * num / den. */
  predicate Overloaded(size: nat, capacity: nat, num: int, den: nat)
  {
    size * den > capacity * num
  }

  /** Whether `set(key, _)` on table `t` holding `size` pairs triggers growth. */
  predicate Grows<V>(t: Table<V>, size: nat, key: Key, num: int, den: nat)
    requires |t| > 0
  {
    !Present(t, key) && Overloaded(size + 1, |t|, num, den)
  }

  /** The table after the whole of `set(key, value)`, growth included. */
  function Assign<V>(t: Table<V>, size: nat, key: Key, value: V, num: int, den: nat): (r: Table<V>)
    requires |t| > 0
  {
    if Grows(t, size, key, num, den) then Grow(Insert(t, key, value)) else Insert(t, key, value)
  }

  /** Selection distributes over concatenation. */
  lemma {:induction false} SelectAppend<V>(a: Bucket<V>, b: Bucket<V>, i: nat, capacity: nat)
    requires capacity > 0
    ensures Select(a + b, i, capacity) == Select(a, i, capacity) + Select(b, i, capacity)
    decreases |b|
  {
    if b != [] {
      var b' := b[..|b| - 1];
      var last := b[|b| - 1];
      assert (a + b)[..|a + b| - 1] == a + b';
      assert (a + b)[|a + b| - 1] == last;
      var tail := if RollingHash(last.0, capacity) == i then [last] else [];
      assert Select(a + b, i, capacity) == Select(a + b', i, capacity) + tail;
      assert Select(b, i, capacity) == Select(b', i, capacity) + tail;
      SelectAppend(a, b', i, capacity);
      assert (Select(a, i, capacity) + Select(b', i, capacity)) + tail
          == Select(a, i, capacity) + (Select(b', i, capacity) + tail);
    } else {
      assert a + b == a;
    }
  }

  /** A run whose keys all hash to h yields itself for h and nothing for any other index. */
  lemma {:induction false} SelectUniform<V>(s: Bucket<V>, h: nat, i: nat, capacity: nat)
    requires capacity > 0
    requires forall j :: 0 <= j < |s| ==> RollingHash(s[j].0, capacity) == h
    ensures Select(s, i, capacity) == if i == h then s else []
    decreases |s|
  {
    if s == [] {
      return;
    }
    var s', last := s[..|s| - 1], s[|s| - 1];
    assert s == s' + [last];
    SelectUniform(s', h, i, capacity);
  }

  /** Appending one pair extends exactly the selection for the index its key hashes to. */
  lemma SelectSnoc<V>(s: Bucket<V>, p: Pair<V>, i: nat, capacity: nat)
    requires capacity > 0
    ensures Select(s + [p], i, capacity)
            == Select(s, i, capacity) + (if RollingHash(p.0, capacity) == i then [p] else [])
  {
    assert (s + [p])[..|s|] == s;
  }

  /** Regrouping no pair gives 2 * capacity empty buckets, the table growth starts from. */
  lemma RegroupEmpty<V>(capacity: nat)
    requires capacity > 0
    ensures Regroup<V>([], capacity) == EmptyTable(2 * capacity)
  {
  }

  /** Regrouping one more pair appends it to the bucket its key hashes to. */
  lemma RegroupSnoc<V>(s: Bucket<V>, p: Pair<V>, capacity: nat)
    requires capacity > 0
    ensures var h := RollingHash(p.0, capacity);
            Regroup(s + [p], capacity) == Regroup(s, capacity)[h := Regroup(s, capacity)[h] + [p]]
  {
    var h := RollingHash(p.0, capacity);
    var t, t' := Regroup(s + [p], capacity), Regroup(s, capacity);
    forall i | 0 <= i < 2 * capacity ensures t[i] == t'[h := t'[h] + [p]][i] {
      SelectSnoc(s, p, i, capacity);
    }
  }

  /** One step of the growth loop: regrouping one more pair of the current bucket. */
  lemma RegroupExtend<V>(walked: Bucket<V>, bucket: Bucket<V>, j: nat, capacity: nat)
    requires capacity > 0 && j < |bucket|
    ensures var h := RollingHash(bucket[j].0, capacity);
            var before := Regroup(walked + bucket[..j], capacity);
            Regroup(walked + bucket[..j + 1], capacity) == before[h := before[h] + [bucket[j]]]
  {
    assert walked + bucket[..j + 1] == (walked + bucket[..j]) + [bucket[j]];
    RegroupSnoc(walked + bucket[..j], bucket[j], capacity);
  }

  /** Appending a pair to one bucket adds exactly that pair to the multiset of all pairs. */
  lemma FlattenAppendTo<V>(t: Table<V>, h: nat, p: Pair<V>)
    requires h < |t|
    ensures multiset(Flatten(t[h := t[h] + [p]])) == multiset(Flatten(t)) + multiset{p}
  {
    var b := t[h];
    FlattenUpdate(t, h, b + [p]);
    assert multiset(b + [p]) == multiset(b) + multiset{p};
    MultisetCancel(multiset(Flatten(t[h := b + [p]])), multiset(b), multiset(Flatten(t)),
                   multiset(b + [p]), multiset{}, multiset{p});
  }

  /** Regrouping a run of pairs into 2 * capacity buckets neither loses nor adds a pair. */
  lemma {:induction false} RegroupPermutes<V>(s: Bucket<V>, capacity: nat)
    requires capacity > 0
    ensures multiset(Flatten(Regroup(s, capacity))) == multiset(s)
    decreases |s|
  {
    if s == [] {
      assert Regroup(s, capacity) == EmptyTable(2 * capacity);
      EmptyTableCount<V>(2 * capacity);
      return;
    }
    var s', p := s[..|s| - 1], s[|s| - 1];
    assert s == s' + [p];
    RegroupPermutes(s', capacity);
    RegroupSnoc(s', p, capacity);
    FlattenAppendTo(Regroup(s', capacity), RollingHash(p.0, capacity), p);
  }

  /** Growth keeps every pair, each exactly as often: the multiset of pairs is unchanged. */
  lemma GrowPermutes<V>(t: Table<V>)
    requires |t| > 0
    ensures multiset(Flatten(Grow(t))) == multiset(Flatten(t))
    ensures Count(Grow(t)) == Count(t)
  {
    RegroupPermutes(Flatten(t), |t|);
    assert |multiset(Flatten(Grow(t)))| == |multiset(Flatten(t))|;
  }

  /** Regrouping the pairs of every bucket is growth, and it keeps the pair count. */
  lemma RegroupAll<V>(t: Table<V>)
    requires |t| > 0
    ensures Regroup(Flatten(t[..|t|]), |t|) == Grow(t)
    ensures Count(Grow(t)) == Count(t)
  {
    assert t[..|t|] == t;
    GrowPermutes(t);
  }

  /** The upper half of a grown table is always empty: indices come from the old capacity. */
  lemma GrowUpperHalfEmpty<V>(t: Table<V>)
    requires |t| > 0
    ensures forall i :: |t| <= i < 2 * |t| ==> Grow(t)[i] == []
  {
    forall i | |t| <= i < 2 * |t| ensures Grow(t)[i] == [] {
      assert Grow(t)[i] == Select(Flatten(t), i, |t|);
    }
  }

  /** Traversing one more bucket of a placed table adds that bucket to its own selection and nothing to the others. */
  lemma SelectPlacedStep<V>(t: Table<V>, k: nat, i: nat)
    requires Placed(t) && 0 < k <= |t|
    ensures Select(Flatten(t[..k]), i, |t|)
            == Select(Flatten(t[..k - 1]), i, |t|) + (if i == k - 1 then t[k - 1] else [])
  {
    var b := t[k - 1];
    FlattenStep(t, k - 1);
    SelectAppend(Flatten(t[..k - 1]), b, i, |t|);
    assert forall j :: 0 <= j < |b| ==> RollingHash(b[j].0, |t|) == k - 1;
    SelectUniform(b, k - 1, i, |t|);
  }

  /** Selecting from the first k buckets of a placed table gives back bucket i, if it is among them. */
  lemma {:induction false} SelectPlacedPrefix<V>(t: Table<V>, k: nat, i: nat)
    requires Placed(t) && k <= |t|
    ensures Select(Flatten(t[..k]), i, |t|) == if i < k then t[i] else []
    decreases k
  {
    if k == 0 {
      assert t[..0] == [];
      return;
    }
    SelectPlacedStep(t, k, i);
    SelectPlacedPrefix(t, k - 1, i);
    var before := Select(Flatten(t[..k - 1]), i, |t|);
    if i < k - 1 {
      assert before + [] == before;
    } else if i == k - 1 {
      assert [] + t[k - 1] == t[k - 1];
    }
  }

  /**
    Growing a placed table keeps bucket i unchanged for every i below the old
    capacity and adds as many empty buckets.
   */
  lemma GrowPlaced<V>(t: Table<V>)
    requires Placed(t)
    ensures forall i :: 0 <= i < |t| ==> Grow(t)[i] == t[i]
    ensures forall i :: |t| <= i < 2 * |t| ==> Grow(t)[i] == []
  {
    assert t[..|t|] == t;
    forall i | 0 <= i < 2 * |t| ensures Grow(t)[i] == if i < |t| then t[i] else [] {
      SelectPlacedPrefix(t, |t|, i);
    }
  }

  /**
    After a placed table grows, a key is found as before if its hash against the
    doubled capacity is its old index, and is not found at all if it is the old
    index plus the old capacity.
   */
  lemma GetAfterGrow<V>(t: Table<V>, key: Key)
    requires Placed(t)
    ensures RollingHash(key, 2 * |t|) < |t| ==> Lookup(Grow(t), key) == Lookup(t, key)
    ensures RollingHash(key, 2 * |t|) >= |t| ==> Lookup(Grow(t), key) == None
  {
    GrowPlaced(t);
    HashAfterDoubling(key, |t|);
  }

  /**
    Whatever the table, a key whose hash against the doubled capacity falls in the
    upper half is not found after growth: growth never fills that half.
   */
  lemma GrowLosesUpperKeys<V>(t: Table<V>, key: Key)
    requires |t| > 0 && RollingHash(key, 2 * |t|) >= |t|
    ensures Lookup(Grow(t), key) == None
  {
    GrowUpperHalfEmpty(t);
  }

  /* ---------------------------------------------------------------------------
     The whole of set
     --------------------------------------------------------------------------- */

  /**
    `set` of a key already in its bucket overwrites that pair where it stands:
    no growth, the same bucket lengths, and the first pair with the key now holds the value.
   */
  lemma AssignPresent<V>(t: Table<V>, size: nat, key: Key, value: V, num: int, den: nat)
    requires |t| > 0 && Present(t, key)
    ensures var h, r := RollingHash(key, |t|), Assign(t, size, key, value, num, den);
            var j := IndexOf(t[h], key).value;
            |r| == |t| && |r[h]| == |t[h]| && r[h][j] == (key, value)
            && (forall m :: 0 <= m < |t[h]| && m != j ==> r[h][m] == t[h][m])
            && (forall i :: 0 <= i < |t| && i != h ==> r[i] == t[i])
  {
    assert Assign(t, size, key, value, num, den) == Insert(t, key, value);
  }

  /** `set` doubles the bucket count exactly when it adds a pair that pushes the count over the load. */
  lemma AssignCapacity<V>(t: Table<V>, size: nat, key: Key, value: V, num: int, den: nat)
    requires |t| > 0
    ensures |Assign(t, size, key, value, num, den)|
            == if !Present(t, key) && (size + 1) * den > |t| * num then 2 * |t| else |t|
  {
    var grows := Grows(t, size, key, num, den);
    assert Assign(t, size, key, value, num, den)
        == if grows then Grow(Insert(t, key, value)) else Insert(t, key, value);
  }

  /** `set` adds a pair exactly when the key was absent from its bucket, growth or not. */
  lemma AssignCount<V>(t: Table<V>, size: nat, key: Key, value: V, num: int, den: nat)
    requires |t| > 0
    ensures Count(Assign(t, size, key, value, num, den))
            == Count(t) + (if Present(t, key) then 0 else 1)
  {
    var t1 := Insert(t, key, value);
    GrowPermutes(t1);
    assert Count(t1) == Count(t) + (if Present(t, key) then 0 else 1);
    assert Count(Grow(t1)) == Count(t1);
    var grows := Grows(t, size, key, num, den);
    assert Assign(t, size, key, value, num, den) == if grows then Grow(t1) else t1;
  }

  /**
    On a placed table, `get` right after `set(key, value)` returns the value,
    unless that `set` grew the table and the key's new hash is in the upper half,
    in which case the key is lost.
   */
  lemma GetAfterAssign<V>(t: Table<V>, size: nat, key: Key, value: V, num: int, den: nat)
    requires Placed(t)
    ensures Lookup(Assign(t, size, key, value, num, den), key)
            == if Grows(t, size, key, num, den) && RollingHash(key, 2 * |t|) >= |t|
               then None else Some(value)
  {
    var t1 := Insert(t, key, value);
    GetAfterInsert(t, key, value);
    if Grows(t, size, key, num, den) {
      InsertPlaced(t, key, value);
      GetAfterGrow(t1, key);
    }
  }

  /**
    On a placed table, `set(key, value)` leaves what another key finds unchanged,
    except when it grows the table and the other key's new index is in the upper
    half: that key is then lost.
   */
  lemma GetOtherAfterAssign<V>(t: Table<V>, size: nat, key: Key, value: V, num: int, den: nat, other: Key)
    requires Placed(t) && other != key
    ensures Lookup(Assign(t, size, key, value, num, den), other)
            == if Grows(t, size, key, num, den) && RollingHash(other, 2 * |t|) >= |t|
               then None else Lookup(t, other)
  {
    var t1 := Insert(t, key, value);
    GetOtherAfterInsert(t, key, value, other);
    if Grows(t, size, key, num, den) {
      InsertPlaced(t, key, value);
      GetAfterGrow(t1, other);
    }
  }

}
