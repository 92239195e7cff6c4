/** The bucketed hash table of HW2/hw2-1.c: `n` buckets of `m` slots inside a
    fixed MAX_BUCKETS x MAX_SLOTS grid, EMPTY marking a free slot, and
    linear probing from bucket `key % n` over every bucket once. */
module HashTable {
  import opened Opt

  const MAX_BUCKETS := 100
  const MAX_SLOTS := 20
  const EMPTY := -1

  /** A position in the grid: bucket index and slot index. */
  datatype Slot = Slot(bucket: int, slot: int)

  /** For 0 <= x < 2n, x mod n is x or x - n. */
  lemma ModSmall(x: int, n: int)
    requires 0 < n && 0 <= x < 2 * n
    ensures x % n == if x < n then x else x - n
  {
    if x < n {
      assert x == n * 0 + x;
    } else {
      assert x == n * 1 + (x - n);
    }
  }

  /** The bucket visited at step `k` of the probe for `key`. */
  function Probe(key: int, n: int, k: int): (b: int)
    requires key >= 0 && n > 0
    ensures 0 <= b < n
  {
    (key % n + k) % n
  }

  /** The step at which the probe for `key` visits bucket `b`. */
  function StepOf(key: int, n: int, b: int): (k: int)
    requires key >= 0 && 0 <= b < n
    ensures 0 <= k < n && Probe(key, n, k) == b
  {
    var h := key % n;
    ModSmall(b - h + n, n);
    var k := (b - h + n) % n;
    ModSmall(h + k, n);
    k
  }

  /** Each step visits the bucket after the previous one, wrapping round. */
  lemma ProbeNext(key: int, n: int, k: int)
    requires key >= 0 && n > 0 && 0 <= k < n
    ensures Probe(key, n, k + 1) == (Probe(key, n, k) + 1) % n
  {
    var h := key % n;
    ModSmall(h + k, n);
    ModSmall(h + k + 1, n);
    ModSmall(Probe(key, n, k) + 1, n);
  }

  /** The first n steps visit n different buckets, and step n is back at
      the start: the do-while stops exactly after every bucket was seen. */
  lemma ProbeOnce(key: int, n: int, k: int, k': int)
    requires key >= 0 && n > 0 && 0 <= k <= n && 0 <= k' <= n && k != k'
    ensures Probe(key, n, k) == Probe(key, n, k') <==> (k == 0 && k' == n) || (k == n && k' == 0)
  {
    var h := key % n;
    ModSmall(h + k, n);
    ModSmall(h + k', n);
  }

  /** Every bucket is visited at the step StepOf names and at no other. */
  lemma StepOfInverse(key: int, n: int, k: int)
    requires key >= 0 && n > 0 && 0 <= k < n
    ensures StepOf(key, n, Probe(key, n, k)) == k
  {
    var k' := StepOf(key, n, Probe(key, n, k));
    if k' != k {
      ProbeOnce(key, n, k, k');
    }
  }

  /** The first slot from `j` on in bucket `b` that holds `v`. */
  ghost function SlotIn(t: array2<int>, b: int, m: int, v: int, j: int): (r: Option<int>)
    reads t
    requires 0 <= b < t.Length0 && 0 <= j <= m <= t.Length1
    ensures r.Some? ==> j <= r.value < m && t[b, r.value] == v
    ensures r.Some? ==> forall j' :: j <= j' < r.value ==> t[b, j'] != v
    ensures r.None? ==> forall j' :: j <= j' < m ==> t[b, j'] != v
    decreases m - j
  {
    if j == m then None
    else if t[b, j] == v then Some(j)
    else SlotIn(t, b, m, v, j + 1)
  }

  /** The first position holding `v` in probe order for `key`, searching
      the buckets from step `k` on. */
  ghost function Locate(t: array2<int>, n: int, m: int, key: int, v: int, k: int): (r: Option<Slot>)
    reads t
    requires key >= 0 && 0 < n <= t.Length0 && 0 <= m <= t.Length1 && 0 <= k <= n
    decreases n - k
  {
    if k == n then None
    else match SlotIn(t, Probe(key, n, k), m, v, 0)
      case Some(j) => Some(Slot(Probe(key, n, k), j))
      case None => Locate(t, n, m, key, v, k + 1)
  }

  /** `p` comes strictly before `q` in probe order for `key`. */
  predicate Earlier(key: int, n: int, p: Slot, q: Slot)
    requires key >= 0 && 0 <= p.bucket < n && 0 <= q.bucket < n
  {
    StepOf(key, n, p.bucket) < StepOf(key, n, q.bucket) || (p.bucket == q.bucket && p.slot < q.slot)
  }

  /** `p` holds `v`, and no position before it in probe order does. */
  ghost predicate FirstHolding(t: array2<int>, n: int, m: int, key: int, v: int, p: Slot)
    reads t
    requires key >= 0 && 0 < n <= t.Length0 && 0 <= m <= t.Length1
  {
    && 0 <= p.bucket < n && 0 <= p.slot < m && t[p.bucket, p.slot] == v
    && forall b, j :: 0 <= b < n && 0 <= j < m && t[b, j] == v ==> !Earlier(key, n, Slot(b, j), p)
  }

  /** No slot of the table holds `v`. */
  ghost predicate Absent(t: array2<int>, n: int, m: int, v: int)
    reads t
    requires n <= t.Length0 && m <= t.Length1
  {
    forall b, j :: 0 <= b < n && 0 <= j < m ==> t[b, j] != v
  }

  /** Locate from step `k` finds the first holder among the buckets at steps
      `k` and later, or tells that none of them holds `v`. */
  lemma {:induction false} LocateFrom(t: array2<int>, n: int, m: int, key: int, v: int, k: int)
    requires key >= 0 && 0 < n <= t.Length0 && 0 <= m <= t.Length1 && 0 <= k <= n
    ensures var r := Locate(t, n, m, key, v, k);
      && (r.Some? ==> 0 <= r.value.bucket < n && 0 <= r.value.slot < m && t[r.value.bucket, r.value.slot] == v)
      && (r.Some? ==> k <= StepOf(key, n, r.value.bucket))
      && (r.Some? ==> forall b, j :: 0 <= b < n && 0 <= j < m && t[b, j] == v && k <= StepOf(key, n, b) ==>
            !Earlier(key, n, Slot(b, j), r.value))
      && (r.None? ==> forall b, j :: 0 <= b < n && 0 <= j < m && k <= StepOf(key, n, b) ==> t[b, j] != v)
    decreases n - k
  {
    if k < n {
      var b0 := Probe(key, n, k);
      StepOfInverse(key, n, k);
      LocateFrom(t, n, m, key, v, k + 1);
      forall b | 0 <= b < n && k <= StepOf(key, n, b) && b != b0
        ensures k + 1 <= StepOf(key, n, b)
      {
      }
    }
  }

  /** The reference reading of Locate: a hit is the first holder of `v` in
      probe order, and a miss means `v` is nowhere in the table. */
  lemma LocateIsFirst(t: array2<int>, n: int, m: int, key: int, v: int)
    requires key >= 0 && 0 < n <= t.Length0 && 0 <= m <= t.Length1
    ensures var r := Locate(t, n, m, key, v, 0);
      && (r.Some? ==> FirstHolding(t, n, m, key, v, r.value))
      && (r.None? <==> Absent(t, n, m, v))
  {
    LocateFrom(t, n, m, key, v, 0);
  }

  class Table {
    const grid: array2<int>
    var n: int
    var m: int

    ghost predicate Valid()
      reads this
    {
      grid.Length0 == MAX_BUCKETS && grid.Length1 == MAX_SLOTS && 0 < n <= MAX_BUCKETS && 0 <= m <= MAX_SLOTS
    }

    /** The table as `main` sets it up: `n` buckets of `m` slots; the
        slots are filled by Initialize. */
    constructor(buckets: int, slots: int)
      requires 0 < buckets <= MAX_BUCKETS && 0 <= slots <= MAX_SLOTS
      ensures Valid() && n == buckets && m == slots && fresh(grid)
    {
      grid := new int[MAX_BUCKETS, MAX_SLOTS];
      n := buckets;
      m := slots;
    }

    /** initializeHashTable: every slot of the first `m` of the first `n`
        buckets becomes EMPTY. */
    method Initialize()
      requires Valid()
      modifies grid
      ensures forall b, j :: 0 <= b < n && 0 <= j < m ==> grid[b, j] == EMPTY
      ensures forall b, j :: 0 <= b < MAX_BUCKETS && 0 <= j < MAX_SLOTS && !(b < n && j < m) ==>
        grid[b, j] == old(grid[b, j])
    {
      for i := 0 to n
        invariant forall b, j :: 0 <= b < i && 0 <= j < m ==> grid[b, j] == EMPTY
        invariant forall b, j :: 0 <= b < MAX_BUCKETS && 0 <= j < MAX_SLOTS && !(b < i && j < m) ==>
          grid[b, j] == old(grid[b, j])
      {
        for j := 0 to m
          invariant forall b, j' :: 0 <= b < i && 0 <= j' < m ==> grid[b, j'] == EMPTY
          invariant forall j' :: 0 <= j' < j ==> grid[i, j'] == EMPTY
          invariant forall b, j' :: 0 <= b < MAX_BUCKETS && 0 <= j' < MAX_SLOTS && !(b < i && j' < m) && !(b == i && j' < j) ==>
            grid[b, j'] == old(grid[b, j'])
        {
          grid[i, j] := EMPTY;
        }
      }
    }

    /** insertKey: `key` goes into the first EMPTY slot in probe order; if
        there is none the table is unchanged. No other slot changes. */
    method InsertKey(key: int)
      requires Valid() && key >= 0
      modifies grid
      ensures var p := old(Locate(grid, n, m, key, EMPTY, 0));
        forall b, j :: 0 <= b < MAX_BUCKETS && 0 <= j < MAX_SLOTS ==>
          grid[b, j] == if p == Some(Slot(b, j)) then key else old(grid[b, j])
    {
      var hashIndex := key % n;
      ModSmall(hashIndex, n);
      var originalIndex := hashIndex;
      ghost var k := 0;
      var more := true;
      while more
        invariant 0 <= k <= n && (more <==> k < n) && (more ==> hashIndex == Probe(key, n, k))
        invariant originalIndex == Probe(key, n, 0)
        invariant Locate(grid, n, m, key, EMPTY, k) == Locate(grid, n, m, key, EMPTY, 0)
        invariant unchanged(grid)
        decreases n - k
      {
        for i := 0 to m
          invariant forall j :: 0 <= j < i ==> grid[hashIndex, j] != EMPTY
        {
          if grid[hashIndex, i] == EMPTY {
            assert SlotIn(grid, hashIndex, m, EMPTY, 0) == Some(i) by {
              SlotInFirst(grid, hashIndex, m, EMPTY, i);
            }
            grid[hashIndex, i] := key;
            return;
          }
        }
        ProbeNext(key, n, k);
        ProbeOnce(key, n, 0, k + 1);
        hashIndex := (hashIndex + 1) % n;
        k := k + 1;
        more := hashIndex != originalIndex;
      }
    }

    /** searchKey: the first position in probe order holding `key`, or
        nothing when no slot holds it; the table is not changed. */
    method SearchKey(key: int) returns (r: Option<Slot>)
      requires Valid() && key >= 0
      ensures r == Locate(grid, n, m, key, key, 0)
      ensures r.Some? ==> FirstHolding(grid, n, m, key, key, r.value)
      ensures r.None? <==> Absent(grid, n, m, key)
    {
      LocateIsFirst(grid, n, m, key, key);
      var hashIndex := key % n;
      ModSmall(hashIndex, n);
      var originalIndex := hashIndex;
      ghost var k := 0;
      var more := true;
      while more
        invariant 0 <= k <= n && (more <==> k < n) && (more ==> hashIndex == Probe(key, n, k))
        invariant originalIndex == Probe(key, n, 0)
        invariant Locate(grid, n, m, key, key, k) == Locate(grid, n, m, key, key, 0)
        decreases n - k
      {
        for i := 0 to m
          invariant forall j :: 0 <= j < i ==> grid[hashIndex, j] != key
        {
          if grid[hashIndex, i] == key {
            SlotInFirst(grid, hashIndex, m, key, i);
            return Some(Slot(hashIndex, i));
          }
        }
        ProbeNext(key, n, k);
        ProbeOnce(key, n, 0, k + 1);
        hashIndex := (hashIndex + 1) % n;
        k := k + 1;
        more := hashIndex != originalIndex;
      }
      return None;
    }

    /** deleteKey: the first slot in probe order holding `key` becomes
        EMPTY; an absent key changes nothing. No other slot changes. */
    method DeleteKey(key: int)
      requires Valid() && key >= 0
      modifies grid
      ensures var p := old(Locate(grid, n, m, key, key, 0));
        forall b, j :: 0 <= b < MAX_BUCKETS && 0 <= j < MAX_SLOTS ==>
          grid[b, j] == if p == Some(Slot(b, j)) then EMPTY else old(grid[b, j])
    {
      var hashIndex := key % n;
      ModSmall(hashIndex, n);
      var originalIndex := hashIndex;
      ghost var k := 0;
      var more := true;
      while more
        invariant 0 <= k <= n && (more <==> k < n) && (more ==> hashIndex == Probe(key, n, k))
        invariant originalIndex == Probe(key, n, 0)
        invariant Locate(grid, n, m, key, key, k) == Locate(grid, n, m, key, key, 0)
        invariant unchanged(grid)
        decreases n - k
      {
        for i := 0 to m
          invariant forall j :: 0 <= j < i ==> grid[hashIndex, j] != key
        {
          if grid[hashIndex, i] == key {
            assert SlotIn(grid, hashIndex, m, key, 0) == Some(i) by {
              SlotInFirst(grid, hashIndex, m, key, i);
            }
            grid[hashIndex, i] := EMPTY;
            return;
          }
        }
        ProbeNext(key, n, k);
        ProbeOnce(key, n, 0, k + 1);
        hashIndex := (hashIndex + 1) % n;
        k := k + 1;
        more := hashIndex != originalIndex;
      }
    }
  }

  /** A slot holding `v` with no `v` before it in its bucket is the one
      SlotIn finds. */
  lemma {:induction false} SlotInFirst(t: array2<int>, b: int, m: int, v: int, i: int)
    requires 0 <= b < t.Length0 && 0 <= i < m <= t.Length1
    requires t[b, i] == v && forall j :: 0 <= j < i ==> t[b, j] != v
    ensures SlotIn(t, b, m, v, 0) == Some(i)
  {
    SlotInFrom(t, b, m, v, 0, i);
  }

  lemma {:induction false} SlotInFrom(t: array2<int>, b: int, m: int, v: int, j: int, i: int)
    requires 0 <= b < t.Length0 && 0 <= j <= i < m <= t.Length1
    requires t[b, i] == v && forall j' :: j <= j' < i ==> t[b, j'] != v
    ensures SlotIn(t, b, m, v, j) == Some(i)
    decreases i - j
  {
    if j < i {
      SlotInFrom(t, b, m, v, j + 1, i);
    }
  }

  /** On a freshly initialised table with at least one slot per bucket, a
      key goes to slot 0 of its home bucket `key % n`. */
  lemma InsertIntoEmptyGoesHome(t: array2<int>, n: int, m: int, key: int)
    requires key >= 0 && 0 < n <= t.Length0 && 0 < m <= t.Length1
    requires forall b, j :: 0 <= b < n && 0 <= j < m ==> t[b, j] == EMPTY
    ensures Locate(t, n, m, key, EMPTY, 0) == Some(Slot(key % n, 0))
  {
    ModSmall(key % n, n);
    assert SlotIn(t, key % n, m, EMPTY, 0) == Some(0);
  }
}
