/**
  The bucket-index function of the hash map: a polynomial rolling hash over the
  key's UTF-16 code units, base 31, reduced modulo the current bucket count after
  every step.
 */
module Hashing {

  /** A UTF-16 code unit, the value `charCodeAt` yields. */
  newtype CodeUnit = c: int | 0 <= c < 0x1_0000

  /** Keys are JavaScript strings, i.e. sequences of code units. */
  type Key = seq<CodeUnit>

  const Prime: nat := 31

  /**
    The hash of `key` against `capacity` buckets: the accumulator starts at 0 and
    each code unit c turns it into (31 * acc + c) % capacity.
   */
  function RollingHash(key: Key, capacity: nat): (h: nat)
    requires capacity > 0
    ensures h < capacity
    ensures key == [] ==> h == 0
    decreases |key|
  {
    if key == [] then 0
    else (Prime * RollingHash(key[..|key| - 1], capacity) + key[|key| - 1] as int) % capacity
  }

  /** The unreduced polynomial: the sum of key[i] * 31^(|key| - 1 - i). */
  function Poly(key: Key): (p: nat)
    decreases |key|
  {
    if key == [] then 0 else Prime * Poly(key[..|key| - 1]) + key[|key| - 1] as int
  }

  /** A product of a factor of at least 1 with a positive m is at least m. */
  lemma MulAtLeast(a: int, m: int)
    requires a >= 1 && m > 0
    ensures a * m >= m
  {
    assert a * m == (a - 1) * m + m;
  }

  /** Euclidean division is unique: a quotient and remainder in range are the ones `/` and `%` give. */
  lemma DivModUnique(x: int, q: int, r: int, m: int)
    requires m > 0 && 0 <= r < m && x == q * m + r
    ensures x / m == q && x % m == r
  {
    var q', r' := x / m, x % m;
    assert x == q' * m + r';
    if q' > q {
      assert (q' - q) * m == q' * m - q * m;
      MulAtLeast(q' - q, m);
    } else if q' < q {
      assert (q - q') * m == q * m - q' * m;
      MulAtLeast(q - q', m);
    }
  }

  /** Reducing the accumulator before one rolling step does not change the result. */
  lemma StepMod(a: nat, c: nat, m: nat)
    requires m > 0
    ensures (Prime * (a % m) + c) % m == (Prime * a + c) % m
  {
    var q := a / m;
    var s := Prime * (a % m) + c;
    assert a == q * m + a % m;
    assert Prime * a + c == (Prime * q) * m + s;
    DivModUnique(s, s / m, s % m, m);
    assert Prime * a + c == (Prime * q + s / m) * m + s % m;
    DivModUnique(Prime * a + c, Prime * q + s / m, s % m, m);
  }

  /**
    Reducing at every step gives the same index as reducing once at the end:
    RollingHash is the polynomial hash taken modulo the capacity.
   */
  lemma {:induction false} RollingHashIsPolyMod(key: Key, capacity: nat)
    requires capacity > 0
    ensures RollingHash(key, capacity) == Poly(key) % capacity
    decreases |key|
  {
    if key != [] {
      var init := key[..|key| - 1];
      RollingHashIsPolyMod(init, capacity);
      StepMod(Poly(init), key[|key| - 1] as int, capacity);
    }
  }

  /** A remainder modulo 2m, reduced again modulo m, is the remainder modulo m. */
  lemma ModOfDoubleMod(x: nat, m: nat)
    requires m > 0
    ensures (x % (2 * m)) % m == x % m
  {
    var q := x / (2 * m);
    var r := x % (2 * m);
    assert x == q * (2 * m) + r;
    DivModUnique(r, r / m, r % m, m);
    assert x == (2 * q + r / m) * m + r % m;
    DivModUnique(x, 2 * q + r / m, r % m, m);
  }

  /**
    Doubling the capacity sends a key either to its old index or to its old index
    plus the old capacity.
   */
  lemma HashAfterDoubling(key: Key, capacity: nat)
    requires capacity > 0
    ensures RollingHash(key, 2 * capacity) % capacity == RollingHash(key, capacity)
    ensures RollingHash(key, 2 * capacity) == RollingHash(key, capacity)
         || RollingHash(key, 2 * capacity) == RollingHash(key, capacity) + capacity
  {
    RollingHashIsPolyMod(key, capacity);
    RollingHashIsPolyMod(key, 2 * capacity);
    ModOfDoubleMod(Poly(key), capacity);
    var h2 := RollingHash(key, 2 * capacity);
    if h2 >= capacity {
      DivModUnique(h2, 1, h2 - capacity, capacity);
    } else {
      DivModUnique(h2, 0, h2, capacity);
    }
  }

}
