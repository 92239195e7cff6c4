/** The array binary min-heap of hw1-3.c: a fixed buffer of MAX_SIZE ints of
    which the first `size` form the heap, with sift-up insertion, recursive
    sift-down, and deletion of the first occurrence of a value. */
module MinHeap {
  const MAX_SIZE := 100

  /** `p` is no larger than its children, leaving out the edge into `c`. */
  ghost predicate NodeOk(s: seq<int>, p: int, c: int)
    requires 0 <= p < |s|
  {
    && (2 * p + 1 < |s| && 2 * p + 1 != c ==> s[p] <= s[2 * p + 1])
    && (2 * p + 2 < |s| && 2 * p + 2 != c ==> s[p] <= s[2 * p + 2])
  }

  /** Min-heap order: every parent is no larger than its children. */
  ghost predicate HeapOrdered(s: seq<int>)
  {
    forall p :: 0 <= p < |s| ==> NodeOk(s, p, -1)
  }

  /** Every edge is in order except possibly the one into `c`. */
  ghost predicate OrderedExceptInto(s: seq<int>, c: int)
  {
    forall p :: 0 <= p < |s| ==> NodeOk(s, p, c)
  }

  /** Every edge is in order except possibly those into and out of `c`. */
  ghost predicate OrderedAround(s: seq<int>, c: int)
  {
    forall p :: 0 <= p < |s| && p != c ==> NodeOk(s, p, c)
  }

  /** The parent of `c` is no larger than any child of `c`. */
  ghost predicate GrandparentOk(s: seq<int>, c: int)
  {
    0 < c < |s| ==>
      && (2 * c + 1 < |s| ==> s[(c - 1) / 2] <= s[2 * c + 1])
      && (2 * c + 2 < |s| ==> s[(c - 1) / 2] <= s[2 * c + 2])
  }

  function Swapped(s: seq<int>, i: int, j: int): (r: seq<int>)
    requires 0 <= i < |s| && 0 <= j < |s|
    ensures |r| == |s| && r[i] == s[j] && r[j] == s[i]
    ensures forall k :: 0 <= k < |s| && k != i && k != j ==> r[k] == s[k]
  {
    s[i := s[j]][j := s[i]]
  }

  /** The heapify-up loop of insert, from position `c`. */
  function SiftUp(s: seq<int>, c: int): (r: seq<int>)
    requires 0 <= c < |s|
    ensures |r| == |s|
    decreases c
  {
    if c == 0 then s
    else if s[c] < s[(c - 1) / 2] then SiftUp(Swapped(s, c, (c - 1) / 2), (c - 1) / 2)
    else s
  }

  /** The child of `i` heapifyDown would swap with, or `i` itself. */
  function Smallest(s: seq<int>, i: int): (m: int)
    requires 0 <= i
    ensures m == i || (m == 2 * i + 1 && m < |s|) || (m == 2 * i + 2 && m < |s|)
    ensures m != i ==> s[m] < s[i]
    ensures 2 * i + 1 < |s| ==> s[m] <= s[2 * i + 1]
    ensures 2 * i + 2 < |s| ==> s[m] <= s[2 * i + 2]
    ensures i < |s| ==> s[m] <= s[i]
  {
    var l := if 2 * i + 1 < |s| && s[2 * i + 1] < s[i] then 2 * i + 1 else i;
    if 2 * i + 2 < |s| && s[2 * i + 2] < s[l] then 2 * i + 2 else l
  }

  /** heapifyDown on the heap prefix `s`, from position `i`. */
  function SiftDown(s: seq<int>, i: int): (r: seq<int>)
    requires 0 <= i
    ensures |r| == |s|
    decreases |s| - i
  {
    var m := Smallest(s, i);
    if m == i then s else SiftDown(Swapped(s, i, m), m)
  }

  lemma SwappedPermutes(s: seq<int>, i: int, j: int)
    requires 0 <= i < |s| && 0 <= j < |s|
    ensures multiset(Swapped(s, i, j)) == multiset(s)
  {
  }

  /** Sift-up only moves values around. */
  lemma {:induction false} SiftUpPermutes(s: seq<int>, c: int)
    requires 0 <= c < |s|
    ensures multiset(SiftUp(s, c)) == multiset(s)
    decreases c
  {
    if c != 0 && s[c] < s[(c - 1) / 2] {
      SwappedPermutes(s, c, (c - 1) / 2);
      SiftUpPermutes(Swapped(s, c, (c - 1) / 2), (c - 1) / 2);
    }
  }

  /** Sift-down only moves values around. */
  lemma {:induction false} SiftDownPermutes(s: seq<int>, i: int)
    requires 0 <= i
    ensures multiset(SiftDown(s, i)) == multiset(s)
    decreases |s| - i
  {
    var m := Smallest(s, i);
    if m != i {
      SwappedPermutes(s, i, m);
      SiftDownPermutes(Swapped(s, i, m), m);
    }
  }

  /** Where deleteElement finds `v`: its first occurrence. */
  function FirstIndex(s: seq<int>, v: int): (i: int)
    requires v in s
    ensures 0 <= i < |s| && s[i] == v && v !in s[..i]
  {
    if s[0] == v then 0 else assert v in s[1..]; 1 + FirstIndex(s[1..], v)
  }

  /** The first occurrence is the only position holding `v` with no `v`
      before it. */
  lemma FirstIndexIs(s: seq<int>, v: int, i: int)
    requires 0 <= i < |s| && s[i] == v && v !in s[..i]
    ensures FirstIndex(s, v) == i
  {
  }

  /** The heap after deleteElement as written: the first `v` is overwritten
      by the last element, the heap shrinks by one, and only sift-down runs. */
  function Delete(s: seq<int>, v: int): (r: seq<int>)
    ensures v !in s ==> r == s
    ensures v in s ==> |r| == |s| - 1
  {
    if v !in s then s
    else
      var i := FirstIndex(s, v);
      SiftDown(s[i := s[|s| - 1]][..|s| - 1], i)
  }

  /** The deletion the authors evidently meant: sift up instead when the
      moved element is smaller than its new parent. */
  function DeleteFixed(s: seq<int>, v: int): (r: seq<int>)
    ensures v !in s ==> r == s
    ensures v in s ==> |r| == |s| - 1
  {
    if v !in s then s
    else
      var i := FirstIndex(s, v);
      var t := s[i := s[|s| - 1]][..|s| - 1];
      if 0 < i < |t| && t[i] < t[(i - 1) / 2] then SiftUp(t, i) else SiftDown(t, i)
  }

  /** One sift-up step: swapping `c` above its larger parent moves the only
      possible disorder one level up. */
  lemma SiftUpStep(s: seq<int>, c: int)
    requires 0 < c < |s| && OrderedExceptInto(s, c) && GrandparentOk(s, c)
    requires s[c] < s[(c - 1) / 2]
    ensures OrderedExceptInto(Swapped(s, c, (c - 1) / 2), (c - 1) / 2)
    ensures GrandparentOk(Swapped(s, c, (c - 1) / 2), (c - 1) / 2)
  {
    var p := (c - 1) / 2;
    var t := Swapped(s, c, p);
    assert NodeOk(s, p, c);
    forall q | 0 <= q < |t| ensures NodeOk(t, q, p) {
      assert NodeOk(s, q, c);
    }
    if 0 < p {
      assert NodeOk(s, (p - 1) / 2, c);
    }
  }

  /** Sift-up repairs a heap whose only disorder is on the edge into `c`,
      provided `c`'s parent bounds `c`'s children. */
  lemma {:induction false} SiftUpOrders(s: seq<int>, c: int)
    requires 0 <= c < |s| && OrderedExceptInto(s, c) && GrandparentOk(s, c)
    ensures HeapOrdered(SiftUp(s, c))
    decreases c
  {
    if c == 0 {
      forall q | 0 <= q < |s| ensures NodeOk(s, q, -1) {
        assert NodeOk(s, q, c);
      }
    } else if s[c] < s[(c - 1) / 2] {
      SiftUpStep(s, c);
      SiftUpOrders(Swapped(s, c, (c - 1) / 2), (c - 1) / 2);
    } else {
      forall q | 0 <= q < |s| ensures NodeOk(s, q, -1) {
        assert NodeOk(s, q, c);
      }
    }
  }

  /** Appending a value to a heap and sifting it up gives a heap. */
  lemma InsertOrders(s: seq<int>, v: int)
    requires HeapOrdered(s)
    ensures HeapOrdered(SiftUp(s + [v], |s|))
  {
    var t := s + [v];
    forall q | 0 <= q < |t| ensures NodeOk(t, q, |s|) {
      if q < |s| {
        assert NodeOk(s, q, -1);
      }
    }
    SiftUpOrders(t, |s|);
  }

  /** One sift-down step: swapping `i` with its smaller child moves the only
      possible disorder below `i` one level down. */
  lemma SiftDownStep(s: seq<int>, i: int)
    requires 0 <= i < |s| && OrderedAround(s, i) && GrandparentOk(s, i)
    requires Smallest(s, i) != i
    ensures OrderedAround(Swapped(s, i, Smallest(s, i)), Smallest(s, i))
    ensures GrandparentOk(Swapped(s, i, Smallest(s, i)), Smallest(s, i))
  {
    var m := Smallest(s, i);
    var t := Swapped(s, i, m);
    assert NodeOk(s, m, i);
    forall q | 0 <= q < |t| && q != m ensures NodeOk(t, q, m) {
      if q != i {
        assert NodeOk(s, q, i);
      }
    }
  }

  /** Sift-down from `m` leaves the positions before `m` alone. */
  lemma {:induction false} SiftDownFrame(s: seq<int>, m: int, j: int)
    requires 0 <= j < m
    ensures j < |s| ==> SiftDown(s, m)[j] == s[j]
    decreases |s| - m
  {
    var k := Smallest(s, m);
    if k != m {
      SiftDownFrame(Swapped(s, m, k), k, j);
    }
  }

  /** Sift-down from `m` leaves at `m` the smallest of `m` and its children. */
  lemma SiftDownTop(s: seq<int>, m: int)
    requires 0 <= m < |s|
    ensures SiftDown(s, m)[m] == s[Smallest(s, m)]
  {
    var k := Smallest(s, m);
    if k != m {
      SiftDownFrame(Swapped(s, m, k), k, m);
    }
  }

  /** Sift-down repairs a heap whose only disorder is on the edges out of
      `i`, provided `i`'s parent bounds `i`'s children: afterwards at most the
      edge into `i` is out of order. */
  lemma {:induction false} SiftDownOrders(s: seq<int>, i: int)
    requires 0 <= i && OrderedAround(s, i) && GrandparentOk(s, i)
    ensures OrderedExceptInto(SiftDown(s, i), i)
    decreases |s| - i
  {
    var m := Smallest(s, i);
    if m == i {
      forall q | 0 <= q < |s| ensures NodeOk(s, q, i) {
        if q != i {
          assert NodeOk(s, q, i);
        }
      }
    } else {
      var t := Swapped(s, i, m);
      SiftDownStep(s, i);
      SiftDownOrders(t, m);
      var r := SiftDown(t, m);
      SiftDownFrame(t, m, i);
      SiftDownTop(t, m);
      var q := Smallest(t, m);
      if q != m {
        assert NodeOk(s, m, i);
      }
      assert r[i] <= r[m];
      JoinEdge(r, m, i);
    }
  }

  /** Once the edge from `i` into its child `m` is in order, a heap out of
      order only on that edge is out of order nowhere except into `i`. */
  lemma JoinEdge(r: seq<int>, m: int, i: int)
    requires 0 <= i < m < |r| && (m - 1) / 2 == i && r[i] <= r[m]
    requires OrderedExceptInto(r, m)
    ensures OrderedExceptInto(r, i)
  {
    forall p | 0 <= p < |r| ensures NodeOk(r, p, i) {
      assert NodeOk(r, p, m);
    }
  }

  /** Deletion as written keeps every edge in order except possibly the one
      into the position the last element was moved to. */
  lemma DeleteOrdersBelow(s: seq<int>, v: int)
    requires HeapOrdered(s) && v in s
    ensures OrderedExceptInto(Delete(s, v), FirstIndex(s, v))
  {
    var i := FirstIndex(s, v);
    var t := s[i := s[|s| - 1]][..|s| - 1];
    forall q | 0 <= q < |t| && q != i ensures NodeOk(t, q, i) {
      assert NodeOk(s, q, -1);
    }
    if 0 < i < |t| {
      assert NodeOk(s, (i - 1) / 2, -1) && NodeOk(s, i, -1);
    }
    SiftDownOrders(t, i);
  }

  /** Overwriting position `i` with the last element and dropping the last
      cell loses exactly one copy of the old `s[i]`. */
  lemma ReplaceByLast(s: seq<int>, i: int)
    requires 0 <= i < |s|
    ensures multiset(s[i := s[|s| - 1]][..|s| - 1]) == multiset(s) - multiset{s[i]}
  {
    var t := s[i := s[|s| - 1]][..|s| - 1];
    assert s == s[..i] + [s[i]] + s[i + 1..];
    if i == |s| - 1 {
      assert t == s[..i];
    } else {
      assert t == s[..i] + [s[|s| - 1]] + s[i + 1..|s| - 1];
      assert s[i + 1..] == s[i + 1..|s| - 1] + [s[|s| - 1]];
    }
  }

  /** Deletion removes exactly one copy of a present value, and nothing
      otherwise; the same holds for the corrected deletion. */
  lemma DeleteRemovesOne(s: seq<int>, v: int)
    ensures multiset(Delete(s, v)) == multiset(s) - multiset{v}
    ensures multiset(DeleteFixed(s, v)) == multiset(s) - multiset{v}
  {
    if v in s {
      var i := FirstIndex(s, v);
      var t := s[i := s[|s| - 1]][..|s| - 1];
      ReplaceByLast(s, i);
      SiftDownPermutes(t, i);
      if 0 < i < |t| {
        SiftUpPermutes(t, i);
      }
    } else {
      assert multiset(s)[v] == 0;
    }
  }

  /** The corrected deletion keeps the heap in order. */
  lemma DeleteFixedOrders(s: seq<int>, v: int)
    requires HeapOrdered(s)
    ensures HeapOrdered(DeleteFixed(s, v))
  {
    if v in s {
      var i := FirstIndex(s, v);
      var t := s[i := s[|s| - 1]][..|s| - 1];
      if 0 < i < |t| && t[i] < t[(i - 1) / 2] {
        RaisedOrders(s, i);
      } else {
        LoweredOrders(s, v);
      }
    }
  }

  /** The moved element is smaller than its new parent: sifting it up
      restores the order. */
  lemma RaisedOrders(s: seq<int>, i: int)
    requires HeapOrdered(s) && 0 < i < |s| - 1
    requires s[|s| - 1] < s[(i - 1) / 2]
    ensures HeapOrdered(SiftUp(s[i := s[|s| - 1]][..|s| - 1], i))
  {
    var t := s[i := s[|s| - 1]][..|s| - 1];
    assert NodeOk(s, i, -1) && NodeOk(s, (i - 1) / 2, -1);
    forall q | 0 <= q < |t| ensures NodeOk(t, q, i) {
      assert NodeOk(s, q, -1);
    }
    SiftUpOrders(t, i);
  }

  /** The moved element is no smaller than its new parent: sifting it
      down restores the order. */
  lemma LoweredOrders(s: seq<int>, v: int)
    requires HeapOrdered(s) && v in s
    requires var i := FirstIndex(s, v); var t := s[i := s[|s| - 1]][..|s| - 1];
      !(0 < i < |t| && t[i] < t[(i - 1) / 2])
    ensures var i := FirstIndex(s, v); HeapOrdered(SiftDown(s[i := s[|s| - 1]][..|s| - 1], i))
  {
    var i := FirstIndex(s, v);
    var t := s[i := s[|s| - 1]][..|s| - 1];
    DeleteOrdersBelow(s, v);
    var r := SiftDown(t, i);
    if 0 < i < |t| {
      var p := (i - 1) / 2;
      SiftDownFrame(t, i, p);
      SiftDownTop(t, i);
      if Smallest(t, i) != i {
        assert NodeOk(s, i, -1) && NodeOk(s, p, -1);
      }
      assert r[p] <= r[i];
    }
    CloseEdge(r, i);
  }

  /** A heap out of order at most on the edge into `i` is a heap once that
      edge is in order. */
  lemma CloseEdge(r: seq<int>, i: int)
    requires OrderedExceptInto(r, i)
    requires 0 < i < |r| ==> r[(i - 1) / 2] <= r[i]
    ensures HeapOrdered(r)
  {
    forall q | 0 <= q < |r| ensures NodeOk(r, q, -1) {
      assert NodeOk(r, q, i);
    }
  }

  /** The sift-down-only deletion can leave the heap out of order: deleting
      6 from [1, 5, 2, 6, 7, 3] moves 3 under 5. */
  lemma DeleteBreaksOrder()
    ensures HeapOrdered([1, 5, 2, 6, 7, 3])
    ensures Delete([1, 5, 2, 6, 7, 3], 6) == [1, 5, 2, 3, 7]
    ensures !HeapOrdered(Delete([1, 5, 2, 6, 7, 3], 6))
  {
    var s := [1, 5, 2, 6, 7, 3];
    assert FirstIndex(s, 6) == 3;
    assert !NodeOk([1, 5, 2, 3, 7], 1, -1);
  }

  /** swap: exchange a[i] and a[j], nothing else. */
  method Swap(a: array<int>, i: int, j: int)
    requires 0 <= i < a.Length && 0 <= j < a.Length
    modifies a
    ensures a[..] == Swapped(old(a[..]), i, j)
  {
    var temp := a[i];
    a[i] := a[j];
    a[j] := temp;
  }

  class Heap {
    var size: int
    const data: array<int>

    ghost predicate Valid()
      reads this
    {
      data.Length == MAX_SIZE && 0 <= size <= MAX_SIZE
    }

    /** The heap's contents: the first `size` cells. */
    ghost function Contents(): seq<int>
      requires Valid()
      reads this, data
    {
      data[..size]
    }

    constructor()
      ensures Valid() && size == 0 && fresh(data)
    {
      size := 0;
      data := new int[MAX_SIZE];
    }

    /** insert: on a full heap nothing changes; otherwise `value` goes in
        the next cell and sifts up while smaller than its parent. */
    method Insert(value: int)
      requires Valid()
      modifies this, data
      ensures Valid()
      ensures old(size) >= MAX_SIZE ==> size == old(size) && data[..] == old(data[..])
      ensures old(size) < MAX_SIZE ==> size == old(size) + 1 && Contents() == SiftUp(old(Contents()) + [value], old(size))
      ensures data[size..] == old(data[..])[size..]
      ensures multiset(Contents()) == multiset(old(Contents())) + if old(size) < MAX_SIZE then multiset{value} else multiset{}
      ensures HeapOrdered(old(Contents())) ==> HeapOrdered(Contents())
    {
      if size >= MAX_SIZE {
        return;
      }
      ghost var s0 := data[..size];
      data[size] := value;
      var current := size;
      size := size + 1;
      assert data[..size] == s0 + [value];
      HeapifyUp(current);
      SiftUpPermutes(s0 + [value], |s0|);
      if HeapOrdered(s0) {
        InsertOrders(s0, value);
      }
    }
  
    /** Lines 30-39 of insert: swap `current` with its parent while it is
        smaller, moving up to the parent. */
    method HeapifyUp(start: int)
      requires Valid() && 0 <= start < size
      modifies data
      ensures Contents() == SiftUp(old(Contents()), start)
      ensures data[size..] == old(data[size..])
    {
      ghost var target := SiftUp(data[..size], start);
      var current := start;
      while current > 0
        invariant 0 <= current < size
        invariant SiftUp(data[..size], current) == target
        invariant data[size..] == old(data[size..])
      {
        var parent := (current - 1) / 2;
        if data[current] < data[parent] {
          label before:
          Swap(data, current, parent);
          assert data[..size] == Swapped(old@before(data[..size]), current, parent) by {
            assert data[..] == Swapped(old@before(data[..]), current, parent);
          }
          current := parent;
        } else {
          break;
        }
      }
    }

    /** heapifyDown: swap `index` with its smaller child while one is
        smaller, recursing on the child. */
    method HeapifyDown(index: int)
      requires Valid() && 0 <= index
      modifies data
      ensures Contents() == SiftDown(old(Contents()), index)
      ensures data[size..] == old(data[size..])
      decreases size - index
    {
      var left := 2 * index + 1;
      var right := 2 * index + 2;
      var smallest := index;
      if left < size && data[left] < data[smallest] {
        smallest := left;
      }
      if right < size && data[right] < data[smallest] {
        smallest := right;
      }
      assert smallest == Smallest(data[..size], index);
      if smallest != index {
        label before:
        Swap(data, index, smallest);
        assert data[..size] == Swapped(old@before(data[..size]), index, smallest) by {
          assert data[..] == Swapped(old@before(data[..]), index, smallest);
        }
        HeapifyDown(smallest);
      }
    }

    /** Lines 79-84 of deleteElement: the last element overwrites the one at
        `index`, the heap shrinks by one, and sift-down runs from `index`. */
    method MoveLastTo(index: int)
      requires Valid() && 0 <= index < size
      modifies this, data
      ensures Valid() && size == old(size) - 1
      ensures Contents() == SiftDown(old(Contents())[index := old(Contents())[old(size) - 1]][..old(size) - 1], index)
    {
      ghost var s0 := data[..size];
      data[index] := data[size - 1];
      size := size - 1;
      assert data[..size] == s0[index := s0[|s0| - 1]][..|s0| - 1] by {
        assert forall k :: 0 <= k < size ==> data[k] == s0[index := s0[|s0| - 1]][k];
      }
      HeapifyDown(index);
    }

    /** Lines 64-72 of deleteElement: the first index holding `value`, or
        -1 when no element of the heap holds it. */
    method Find(value: int) returns (index: int)
      requires Valid()
      ensures value in Contents() ==> index == FirstIndex(Contents(), value)
      ensures value !in Contents() ==> index == -1
    {
      index := -1;
      var i := 0;
      while i < size
        invariant 0 <= i <= size && value !in data[..i] && index == -1
      {
        if data[i] == value {
          index := i;
          FirstIndexIs(data[..size], value, index);
          return;
        }
        i := i + 1;
      }
      assert data[..i] == data[..size];
    }

    /** deleteElement: find the first `value`; if there is none nothing
        changes, otherwise the last element takes its place, the heap shrinks
        by one and the moved element sifts down. */
    method DeleteElement(value: int)
      requires Valid()
      modifies this, data
      ensures Valid()
      ensures Contents() == Delete(old(Contents()), value)
      ensures size == if value in old(Contents()) then old(size) - 1 else old(size)
      ensures multiset(Contents()) == multiset(old(Contents())) - multiset{value}
      ensures HeapOrdered(old(Contents())) && value in old(Contents()) ==>
        OrderedExceptInto(Contents(), FirstIndex(old(Contents()), value))
    {
      ghost var s0 := data[..size];
      var index := Find(value);
      if index == -1 {
        DeleteRemovesOne(s0, value);
        return;
      }
      MoveLastTo(index);
      DeleteRemovesOne(s0, value);
      if HeapOrdered(s0) {
        DeleteOrdersBelow(s0, value);
      }
    }
  }
}
