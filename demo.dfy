/**
  Client runs of the hash map: the usage script that closes the source file,
  and two growth scenarios that show where the non-rehashing growth leads.
 */
module Demo {
  import opened Wrappers
  import opened Hashing
  import opened Buckets
  import opened HashMaps

  /** The code units of the strings "key1" … "key4", "a" and "b". */
  const Key1: Key := [107, 101, 121, 49]
  const Key2: Key := [107, 101, 121, 50]
  const Key3: Key := [107, 101, 121, 51]
  const Key4: Key := [107, 101, 121, 52]
  const KeyA: Key := [97]
  const KeyB: Key := [98]

  /** Against 16 buckets, "key1" … "key4" land in buckets 2 … 5. */
  lemma DemoHashes()
    ensures RollingHash(Key1, 16) == 2 && RollingHash(Key2, 16) == 3
    ensures RollingHash(Key3, 16) == 4 && RollingHash(Key4, 16) == 5
  {
    var prefix: Key := [107, 101, 121];
    assert RollingHash(prefix[..2][..1], 16) == 11;
    assert RollingHash(prefix[..2], 16) == 10;
    assert RollingHash(prefix, 16) == 15;
    assert Key1[..3] == prefix && Key2[..3] == prefix && Key3[..3] == prefix && Key4[..3] == prefix;
  }

  /** A `set` of a key whose bucket is empty, below the load: the bucket becomes that one pair. */
  lemma SetIntoEmptyBucket<V>(t: Table<V>, size: nat, key: Key, value: V, num: int, den: nat)
    requires |t| > 0 && t[RollingHash(key, |t|)] == []
    requires !Overloaded(size + 1, |t|, num, den)
    ensures Assign(t, size, key, value, num, den) == t[RollingHash(key, |t|) := [(key, value)]]
  {
    var h := RollingHash(key, |t|);
    assert !Present(t, key);
    assert Put(t[h], key, value) == [(key, value)];
  }

  /** A `remove` of the only pair in a bucket empties that bucket. */
  lemma EraseOnlyPair<V>(t: Table<V>, key: Key, value: V)
    requires |t| > 0 && t[RollingHash(key, |t|)] == [(key, value)]
    ensures Erase(t, key) == t[RollingHash(key, |t|) := []]
  {
    var h := RollingHash(key, |t|);
    assert IndexOf(t[h], key) == Some(0);
    assert Delete(t[h], key) == [];
  }

  /** The table after the script's three sets: "key1" … "key3" alone in buckets 2 … 4. */
  const ScriptTable: Table<string> :=
    EmptyTable<string>(16)[2 := [(Key1, "value1")]][3 := [(Key2, "value2")]][4 := [(Key3, "value3")]]

  /** The three sets of the script fill buckets 2, 3 and 4 of the default table and never grow it. */
  lemma ScriptSets()
    ensures Assign(Assign(Assign(EmptyTable<string>(16), 0, Key1, "value1", 3, 4),
                          1, Key2, "value2", 3, 4),
                   2, Key3, "value3", 3, 4) == ScriptTable
  {
    DemoHashes();
    var t0 := EmptyTable<string>(16);
    var t1 := t0[2 := [(Key1, "value1")]];
    var t2 := t1[3 := [(Key2, "value2")]];
    SetIntoEmptyBucket(t0, 0, Key1, "value1", 3, 4);
    SetIntoEmptyBucket(t1, 1, Key2, "value2", 3, 4);
    SetIntoEmptyBucket(t2, 2, Key3, "value3", 3, 4);
  }

  /** Traversal of the filled table meets the three pairs in bucket order. */
  lemma ScriptTraversal()
    ensures Flatten(ScriptTable) == [(Key1, "value1"), (Key2, "value2"), (Key3, "value3")]
  {
    var p1, p2, p3 := (Key1, "value1"), (Key2, "value2"), (Key3, "value3");
    var t0 := EmptyTable<string>(16);
    var t1 := t0[2 := [p1]];
    var t2 := t1[3 := [p2]];
    EmptyTableCount<string>(16);
    FlattenFillLast(t0, 2, [p1]);
    FlattenFillLast(t1, 3, [p2]);
    FlattenFillLast(t2, 4, [p3]);
  }

  /** What the script reads back from the filled table. */
  lemma ScriptReads()
    ensures Lookup(ScriptTable, Key2) == Some("value2") && !Present(ScriptTable, Key4)
    ensures KeysOf(Flatten(ScriptTable)) == [Key1, Key2, Key3]
    ensures ValuesOf(Flatten(ScriptTable)) == ["value1", "value2", "value3"]
  {
    DemoHashes();
    assert IndexOf(ScriptTable[3], Key2) == Some(0);
    ScriptTraversal();
    var ps: Bucket<string> := [(Key1, "value1"), (Key2, "value2"), (Key3, "value3")];
    var ks := KeysOf(ps);
    var vs := ValuesOf(ps);
    assert ks == [Key1, Key2, Key3] by {
      assert |ks| == 3 && ks[0] == Key1 && ks[1] == Key2 && ks[2] == Key3;
    }
    assert vs == ["value1", "value2", "value3"] by {
      assert |vs| == 3 && vs[0] == "value1" && vs[1] == "value2" && vs[2] == "value3";
    }
  }

  /** Traversal of the table after removing "key2" meets the two other pairs. */
  lemma ScriptTraversalAfterRemove()
    ensures Flatten(ScriptTable[3 := []]) == [(Key1, "value1"), (Key3, "value3")]
  {
    var p1, p3 := (Key1, "value1"), (Key3, "value3");
    var t0 := EmptyTable<string>(16);
    var t1 := t0[2 := [p1]];
    assert ScriptTable[3 := []] == t1[4 := [p3]];
    EmptyTableCount<string>(16);
    FlattenFillLast(t0, 2, [p1]);
    FlattenFillLast(t1, 4, [p3]);
  }

  /** Removing "key2" empties bucket 3; the key is then absent and the others keep their order. */
  lemma ScriptRemove()
    ensures Present(ScriptTable, Key2)
    ensures Lookup(Erase(ScriptTable, Key2), Key2) == None
    ensures KeysOf(Flatten(Erase(ScriptTable, Key2))) == [Key1, Key3]
  {
    DemoHashes();
    EraseOnlyPair(ScriptTable, Key2, "value2");
    assert IndexOf(ScriptTable[3], Key2) == Some(0);
    ScriptTraversalAfterRemove();
    var ks := KeysOf([(Key1, "value1"), (Key3, "value3")]);
    assert ks == [Key1, Key3] by {
      assert |ks| == 2 && ks[0] == Key1 && ks[1] == Key3;
    }
  }

  /**
    The usage script: three pairs set into a default map, read back, one of them
    removed, then the map cleared. The out-parameters are what the script logs.
   */
  method UsageScript()
    returns (got2: Option<string>, has4: bool, n: nat, ks: seq<Key>, vs: seq<string>,
             es: seq<Pair<string>>, gotAfter: Option<string>, ksAfter: seq<Key>,
             nCleared: nat, ksCleared: seq<Key>)
    ensures got2 == Some("value2") && !has4 && n == 3
    ensures ks == [Key1, Key2, Key3] && vs == ["value1", "value2", "value3"]
    ensures es == [(Key1, "value1"), (Key2, "value2"), (Key3, "value3")]
    ensures gotAfter == None && ksAfter == [Key1, Key3]
    ensures nCleared == 0 && ksCleared == []
  {
    ScriptSets();
    ScriptReads();
    ScriptTraversal();
    ScriptRemove();
    var hashMap := new HashMap<string>.Default();
    hashMap.Set(Key1, "value1");
    hashMap.Set(Key2, "value2");
    hashMap.Set(Key3, "value3");
    assert hashMap.buckets == ScriptTable;

    got2 := hashMap.Get(Key2);
    has4 := hashMap.Has(Key4);
    n := hashMap.Length();
    ks := hashMap.Keys();
    vs := hashMap.Values();
    es := hashMap.Entries();

    var removed := hashMap.Remove(Key2);
    assert hashMap.buckets == Erase(ScriptTable, Key2);
    gotAfter := hashMap.Get(Key2);
    ksAfter := hashMap.Keys();

    hashMap.Clear();
    EmptyTableCount<string>(16);
    nCleared := hashMap.Length();
    ksCleared := hashMap.Keys();
  }

  /** RollingHash of the one-unit key "a" against 1, 2 and 4 buckets. */
  lemma KeyAHashes()
    ensures RollingHash(KeyA, 1) == 0 && RollingHash(KeyA, 2) == 1 && RollingHash(KeyA, 4) == 1
  {
    assert KeyA[..0] == [];
  }

  /** The first `set("a", 1)` on a one-bucket map with load factor 3/4 grows it; the pair stays in bucket 0. */
  lemma FirstSetGrows()
    ensures Assign<int>([[]], 0, KeyA, 1, 3, 4) == [[(KeyA, 1)], []]
  {
    KeyAHashes();
    var t1: Table<int> := [[(KeyA, 1)]];
    assert Grows<int>([[]], 0, KeyA, 3, 4);
    assert Put<int>([], KeyA, 1) == [(KeyA, 1)];
    assert Insert<int>([[]], KeyA, 1) == t1;
    assert t1[..0] == [];
    assert Flatten(t1) == [(KeyA, 1)];
    var g := Grow(t1);
    assert g[0] == Select([(KeyA, 1)], 0, 1);
    assert [(KeyA, 1)][..0] == [];
    assert g == [[(KeyA, 1)], []];
  }

  /** Growing the two-bucket table that holds "a" once in each bucket: both pairs hash to 1 against 2. */
  lemma GrowTwoPairs()
    ensures Grow<int>([[(KeyA, 1)], [(KeyA, 2)]]) == [[], [(KeyA, 1), (KeyA, 2)], [], []]
  {
    KeyAHashes();
    var t1: Table<int> := [[(KeyA, 1)], [(KeyA, 2)]];
    var pairs: Bucket<int> := [(KeyA, 1), (KeyA, 2)];
    assert Flatten(t1) == pairs by {
      FlattenStep(t1, 0);
      FlattenStep(t1, 1);
      assert t1[..0] == [] && t1[..2] == t1;
    }
    var g := Grow(t1);
    forall i | 0 <= i < 4 ensures g[i] == [[], pairs, [], []][i] {
      SelectUniform(pairs, 1, i, 2);
    }
  }

  /** The second `set("a", 2)` appends a second pair for the key and grows the map to 4 buckets. */
  lemma SecondSetGrows()
    ensures Assign<int>([[(KeyA, 1)], []], 1, KeyA, 2, 3, 4) == [[], [(KeyA, 1), (KeyA, 2)], [], []]
  {
    KeyAHashes();
    var t: Table<int> := [[(KeyA, 1)], []];
    assert !Present(t, KeyA);
    assert Grows(t, 1, KeyA, 3, 4);
    assert Put<int>([], KeyA, 2) == [(KeyA, 2)];
    assert Insert(t, KeyA, 2) == [[(KeyA, 1)], [(KeyA, 2)]];
    GrowTwoPairs();
  }

  /**
    Growth without rehashing loses a key: a one-bucket map grows on its first
    set, the pair stays in bucket 0, yet "a" now hashes to bucket 1.
   */
  method LostAfterGrowth() returns (n: nat, got: Option<int>, found: bool)
    ensures n == 1 && got == None && !found
  {
    var hashMap := new HashMap<int>(1, 3, 4);
    assert hashMap.buckets == [[]];
    FirstSetGrows();
    KeyAHashes();
    hashMap.Set(KeyA, 1);
    n := hashMap.Length();
    got := hashMap.Get(KeyA);
    found := hashMap.Has(KeyA);
  }

  /**
    A set that grows the table can lose another key: in a one-bucket map with
    load factor 1 holding "a", setting "b" grows the table, and "a" now hashes to
    the empty bucket 1.
   */
  lemma OtherKeyLost()
    ensures Lookup<int>([[(KeyA, 1)]], KeyA) == Some(1)
    ensures Lookup(Assign<int>([[(KeyA, 1)]], 1, KeyB, 2, 1, 1), KeyA) == None
  {
    KeyAHashes();
    var t: Table<int> := [[(KeyA, 1)]];
    assert RollingHash(KeyB, 1) == 0;
    assert IndexOf(t[0], KeyA) == Some(0);
    assert IndexOf(t[0], KeyB) == None;
    assert Placed(t);
    GetOtherAfterAssign(t, 1, KeyB, 2, 1, 1, KeyA);
  }

  /** The table the two sets of "a" leave behind: both pairs sit in bucket 1, and the first one answers. */
  lemma StaleTable()
    ensures var t: Table<int> := [[], [(KeyA, 1), (KeyA, 2)], [], []];
            Count(t) == 2 && KeysOf(Flatten(t)) == [KeyA, KeyA] && Lookup(t, KeyA) == Some(1)
  {
    KeyAHashes();
    var t: Table<int> := [[], [(KeyA, 1), (KeyA, 2)], [], []];
    var pairs: Bucket<int> := [(KeyA, 1), (KeyA, 2)];
    assert Flatten(t) == pairs by {
      FlattenStep(t, 1);
      FlattenSkipEmpty(t, 0, 1);
      FlattenSkipEmpty(t, 2, 4);
      assert t[..4] == t;
    }
    assert KeysOf(pairs) == [KeyA, KeyA] by {
      assert pairs[..1] == [(KeyA, 1)] && pairs[..1][..0] == [];
    }
    assert IndexOf(t[1], KeyA) == Some(0);
  }

  /**
    What the two sets of "a" leave behind: one key stored twice, both pairs
    counted, and `get` answering with the first, stale, value.
   */
  lemma StaleRun()
    ensures var t := Assign<int>(Assign<int>([[]], 0, KeyA, 1, 3, 4), 1, KeyA, 2, 3, 4);
            |t| == 4 && Count(t) == 2 && KeysOf(Flatten(t)) == [KeyA, KeyA] && Lookup(t, KeyA) == Some(1)
  {
    FirstSetGrows();
    SecondSetGrows();
    StaleTable();
  }

  /**
    A lost key set again is stored a second time: the map then counts two pairs
    with one key and, after the next growth, `get` returns the stale first value.
   */
  method StaleAfterGrowth() returns (n: nat, ks: seq<Key>, got: Option<int>)
    ensures n == 2 && ks == [KeyA, KeyA] && got == Some(1)
  {
    var hashMap := new HashMap<int>(1, 3, 4);
    assert hashMap.buckets == [[]];
    StaleRun();
    FirstSetGrows();
    KeyAHashes();
    hashMap.Set(KeyA, 1);
    hashMap.Set(KeyA, 2);
    n := hashMap.Length();
    ks := hashMap.Keys();
    got := hashMap.Get(KeyA);
  }

  /**
    On the stale table, `remove("a")` reports success, yet `get("a")` still finds
    the second pair: remove takes out only the first pair with the key.
   */
  lemma StaleRemove()
    ensures var t: Table<int> := [[], [(KeyA, 1), (KeyA, 2)], [], []];
            Present(t, KeyA) && Lookup(Erase(t, KeyA), KeyA) == Some(2)
  {
    KeyAHashes();
    var t: Table<int> := [[], [(KeyA, 1), (KeyA, 2)], [], []];
    assert IndexOf(t[1], KeyA) == Some(0);
    GetAfterEraseRepeated(t, KeyA);
    assert t[1][1..] == [(KeyA, 2)];
    assert IndexOf<int>([(KeyA, 2)], KeyA) == Some(0);
  }

  /** Through the class: after the stale run, `remove("a")` returns true and `get("a")` returns 2. */
  method RemoveLeavesStale() returns (removed: bool, got: Option<int>)
    ensures removed && got == Some(2)
  {
    var hashMap := new HashMap<int>(1, 3, 4);
    assert hashMap.buckets == [[]];
    StaleRun();
    StaleRemove();
    FirstSetGrows();
    SecondSetGrows();
    hashMap.Set(KeyA, 1);
    assert hashMap.buckets == [[(KeyA, 1)], []] && hashMap.size == 1;
    hashMap.Set(KeyA, 2);
    assert hashMap.buckets == [[], [(KeyA, 1), (KeyA, 2)], [], []];
    removed := hashMap.Remove(KeyA);
    got := hashMap.Get(KeyA);
  }
}
