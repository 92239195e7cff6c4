/**
 * The Fibonacci heap operations of HW2/hw2-2.c, over the heap record and
 * node arena of `FibHeap`.
 *
 * They differ from HW2/hw2-2test.c in where nodes are spliced in: a new or
 * cut node joins the root list immediately LEFT of `min` (right of `min`'s
 * left neighbour), and a node linked under `x` joins `x`'s child ring left of
 * `x.child`, at the end of the ring. decreaseKey takes its new key rather
 * than a difference, and rejects a larger one. extractMin and the rebuild
 * phase of consolidate are in `FibAltExtract` and `FibAltTable`.
 */
module FibHeapAlt {
  import opened Rings
  import opened FibNodes
  import opened FibForest
  import opened FibTable
  import opened FibCut
  import opened FibHeap
  import opened FibAltExtract

  /** The smallest value of a C `int`. */
  const INT_MIN: int := -0x8000_0000

  /** insert: a new node holding `k` joins the root list immediately left of
      `min` (or alone, in an empty heap), `n` grows by one, and `min` moves
      to it exactly when the heap was empty or `k` is strictly smaller. */
  method Insert(h: Heap, k: int) returns (x: int)
    requires h.Valid()
    modifies h
    ensures h.Valid() && x == old(|h.a.key|) && h.a.key == old(h.a.key) + [k]
    ensures h.n == old(h.n) + 1 && h.sh.nodes == old(h.sh.nodes) + {x}
    ensures Entries(h.a, h.sh) == old(Entries(h.a, h.sh))[x := k]
    ensures old(h.min) == NIL ==> h.min == x && h.sh.roots == [x]
    ensures old(h.min) != NIL ==> h.min == if k < h.a.key[old(h.min)] then x else old(h.min)
    ensures old(h.min) != NIL ==> h.a.right[x] == old(h.min) && h.a.left[old(h.min)] == x
    ensures old(h.min) != NIL ==> h.sh.roots == InsertAfter(old(h.sh.roots), old(h.a.left[h.min]), x)
  {
    x := h.CreateFibNode(k);
    Place(h, x);
  }

  /** Lines 62-73 of insert, for the fresh node `x`: it becomes the one root
      of an empty heap, or joins the ring left of `min`; `n` grows by one. */
  method Place(h: Heap, x: int)
    requires h.Valid() && Detached(h.a, h.sh, x)
    modifies h
    ensures h.Valid() && h.a.key == old(h.a.key)
    ensures h.n == old(h.n) + 1 && h.sh.nodes == old(h.sh.nodes) + {x}
    ensures Entries(h.a, h.sh) == old(Entries(h.a, h.sh))[x := h.a.key[x]]
    ensures old(h.min) == NIL ==> h.min == x && h.sh.roots == [x]
    ensures old(h.min) != NIL ==> h.min == if h.a.key[x] < h.a.key[old(h.min)] then x else old(h.min)
    ensures old(h.min) != NIL ==> h.a.right[x] == old(h.min) && h.a.left[old(h.min)] == x
    ensures old(h.min) != NIL ==> h.sh.roots == InsertAfter(old(h.sh.roots), old(h.a.left[h.min]), x)
  {
    if h.min == NIL {
      InsertKeepsInv(h.a, h.sh, h.min, h.n, x);
      h.min := x;
      h.sh := h.sh.(nodes := h.sh.nodes + {x}, roots := [x]);
    } else {
      h.a, h.sh, h.min := AddLeft(h.a, h.sh, h.min, h.n, x);
    }
    h.n := h.n + 1;
  }

  /** Lines 67-73 of insert: the detached node `x` is linked in between
      `min` and its left neighbour, and becomes `min` on a strictly smaller
      key. */
  method AddLeft(a: Arena, ghost s: Shape, min: int, ghost n: int, x: int)
    returns (a': Arena, ghost s': Shape, min': int)
    requires Inv(a, s, min, n) && Detached(a, s, x) && min != NIL
    ensures 0 <= min < |a.key| && 0 <= a.left[min] < |a.key|
    ensures Inv(a', s', min', n + 1) && Entries(a', s') == Entries(a, s)[x := a.key[x]]
    ensures a'.key == a.key && min' == (if a.key[x] < a.key[min] then x else min)
    ensures s'.nodes == s.nodes + {x} && s'.roots == InsertAfter(s.roots, a.left[min], x)
    ensures a'.right[x] == min && a'.left[min] == x
  {
    InsertLeftKeepsInv(a, s, min, n, x);
    var m := a.left[min];
    a' := a.(right := a.right[x := min]);
    a' := a'.(left := a'.left[x := a'.left[min]]);
    a' := a'.(right := a'.right[a'.left[min] := x]);
    a' := a'.(left := a'.left[min := x]);
    assert a' == SpliceRight(a, m, x);
    s' := s.(nodes := s.nodes + {x}, roots := InsertAfter(s.roots, m, x));
    min' := min;
    if a'.key[x] < a'.key[min] {
      min' := x;
    }
  }

  /** Putting a detached node on the root ring immediately left of `min`,
      that is right of `min`'s left neighbour, keeps the heap invariant. */
  lemma InsertLeftKeepsInv(a: Arena, s: Shape, min: int, n: int, x: int)
    requires Inv(a, s, min, n) && Detached(a, s, x) && min != NIL
    ensures min in s.roots && 0 <= min < |a.key| && 0 <= a.left[min] < |a.key|
    ensures a.left[min] in s.roots && a.right[a.left[min]] == min
    ensures var m := a.left[min];
      var a', s' := SpliceRight(a, m, x), s.(nodes := s.nodes + {x}, roots := InsertAfter(s.roots, m, x));
      Inv(a', s', if a.key[x] < a.key[min] then x else min, n + 1) && Entries(a', s') == Entries(a, s)[x := a.key[x]]
  {
    RingBack(a.left, a.right, s.roots, min);
    var m := a.left[min];
    var a', s' := SpliceRight(a, m, x), s.(nodes := s.nodes + {x}, roots := InsertAfter(s.roots, m, x));
    RingSplice(a.left, a.right, s.roots, m, x);
    AddRootKeepsInv(a, s, min, n, x, a', s', if a.key[x] < a.key[min] then x else min);
  }

  /** Read from `min`, the root ring after insert ends with the new node:
      right of `min`'s left neighbour is the last place before `min` again. */
  lemma InsertedLast(s: seq<int>, min: int, m: int, x: int)
    requires Distinct(s) && min in s && m in s && x !in s
    requires m == s[if IndexOf(s, min) == 0 then |s| - 1 else IndexOf(s, min) - 1]
    ensures var t := InsertAfter(s, m, x);
      min in t && Rotation(t, IndexOf(t, min)) == Rotation(s, IndexOf(s, min)) + [x]
  {
    if IndexOf(s, min) == 0 {
      InsertedLastWrap(s, min, m, x);
    } else {
      InsertedLastInner(s, min, m, x);
    }
  }

  /** `InsertedLast` when `min` heads the sequence: `x` goes at the end. */
  lemma InsertedLastWrap(s: seq<int>, min: int, m: int, x: int)
    requires Distinct(s) && min in s && m in s && x !in s
    requires IndexOf(s, min) == 0 && m == s[|s| - 1]
    ensures var t := InsertAfter(s, m, x);
      min in t && Rotation(t, IndexOf(t, min)) == Rotation(s, IndexOf(s, min)) + [x]
  {
    var q := IndexOf(s, m);
    var t := InsertAfter(s, m, x);
    assert t == s[..q + 1] + [x] + s[q + 1..];
    assert q == |s| - 1;
    assert t == s + [x];
    assert IndexOf(t, min) == 0;
  }

  /** `InsertedLast` when `min` is at index `p > 0`: `x` lands at `p`. */
  lemma InsertedLastInner(s: seq<int>, min: int, m: int, x: int)
    requires Distinct(s) && min in s && m in s && x !in s
    requires IndexOf(s, min) > 0 && m == s[IndexOf(s, min) - 1]
    ensures var t := InsertAfter(s, m, x);
      min in t && Rotation(t, IndexOf(t, min)) == Rotation(s, IndexOf(s, min)) + [x]
  {
    var p := IndexOf(s, min);
    assert IndexOf(s, m) == p - 1 by {
      var q := IndexOf(s, m);
      assert s[q] == s[p - 1];
    }
    var t := InsertAfter(s, m, x);
    var u, v := s[..p], s[p..];
    assert s == u + v;
    assert t == u + [x] + v;
    assert IndexOf(t, min) == p + 1 by {
      assert t[p + 1] == v[0] == min;
      forall j | 0 <= j < p + 1 ensures t[j] != min {
        if j < p { assert t[j] == u[j] == s[j]; }
      }
    }
    assert t[p + 1..] == v;
    assert t[..p + 1] == u + [x];
    calc {
      Rotation(t, p + 1);
      v + (u + [x]);
      (v + u) + [x];
      Rotation(s, p) + [x];
    }
  }

  /** The member of `x`'s child ring that linkNodes splices a new child in
      after: `x.child`'s left neighbour, the last member of the ring (NIL
      when `x` has no children). */
  ghost function ChildTail(a: Arena, s: Shape, x: int): (c: int)
    requires Sized(a, s) && Tree(a, s, NIL) && x in s.nodes
    ensures Distinct(s.kids[x]) && (c == NIL <==> s.kids[x] == [])
    ensures c != NIL ==> c == s.kids[x][|s.kids[x]| - 1]
  {
    assert NodeOk(a, s, x, NIL);
    if a.child[x] == NIL then NIL else a.left[a.child[x]]
  }

  /** linkNodes: `y` leaves the root ring with parent `x` and no mark, and
      joins `x`'s child ring as its last member, left of `x.child` (or alone);
      `x`'s degree grows by one. When `x`'s key is no larger than `y`'s the
      forest stays heap-ordered with the same entries. */
  method LinkNodes(h: Heap, y: int, x: int)
    requires Forest(h.a, h.sh) && x in h.sh.roots && y in h.sh.roots && x != y
    modifies h
    ensures LinkPre(old(h.a), old(h.sh), x, y, ChildTail(old(h.a), old(h.sh), x))
    ensures h.a == LinkArena(old(h.a), old(h.sh), x, y, ChildTail(old(h.a), old(h.sh), x))
    ensures h.sh == LinkShape(old(h.a), old(h.sh), x, y, ChildTail(old(h.a), old(h.sh), x))
    ensures h.sh.kids[x] == old(h.sh.kids[x]) + [y] && h.sh.roots == Without(old(h.sh.roots), y)
    ensures h.min == old(h.min) && h.n == old(h.n)
    ensures old(h.a.key[x]) <= old(h.a.key[y]) ==>
      Forest(h.a, h.sh) && Entries(h.a, h.sh) == old(Entries(h.a, h.sh))
  {
    ghost var a0, s0 := h.a, h.sh;
    ghost var c := ChildTail(h.a, h.sh, x);
    h.a := LinkBelow(h.a, y, x, h.sh);
    h.sh := LinkShape(a0, s0, x, y, c);
    if c != NIL {
      InsertAfterLast(s0.kids[x], y);
    }
    if a0.key[x] <= a0.key[y] {
      LinkKeepsTree(a0, s0, x, y, c);
    }
  }

  /** Lines 78-92 of linkNodes on the arena. */
  method LinkBelow(a: Arena, y: int, x: int, ghost s: Shape) returns (a': Arena)
    requires Forest(a, s) && x in s.roots && y in s.roots && x != y
    ensures LinkPre(a, s, x, y, ChildTail(a, s, x)) && a' == LinkArena(a, s, x, y, ChildTail(a, s, x))
  {
    ghost var c := ChildTail(a, s, x);
    LinkTailFacts(a, s, x, y);
    a' := a.(right := a.right[a.left[y] := a.right[y]]);
    a' := a'.(left := a'.left[a'.right[y] := a'.left[y]]);
    a' := a'.(parent := a'.parent[y := x]);
    if a'.child[x] == NIL {
      a' := a'.(child := a'.child[x := y]);
      a' := a'.(right := a'.right[y := y]);
      a' := a'.(left := a'.left[y := y]);
    } else {
      var ch := a'.child[x];
      a' := a'.(right := a'.right[y := ch]);
      a' := a'.(left := a'.left[y := a'.left[ch]]);
      a' := a'.(right := a'.right[a'.left[ch] := y]);
      a' := a'.(left := a'.left[ch := y]);
    }
    a' := a'.(degree := a'.degree[x := a'.degree[x] + 1]);
    a' := a'.(mark := a'.mark[y := false]);
  }

  /** What linkNodes reads of the arena is in range, and the child ring of
      `x` is apart from the root ring. */
  lemma LinkTailFacts(a: Arena, s: Shape, x: int, y: int)
    requires Forest(a, s) && x in s.roots && y in s.roots && x != y
    ensures var c := ChildTail(a, s, x);
      && LinkPre(a, s, x, y, c)
      && 0 <= a.left[y] < |a.key| && 0 <= a.right[y] < |a.key| && a.left[y] != y
      && a.left[y] in s.roots && a.right[y] in s.roots
      && 0 <= x < |a.key| && 0 <= y < |a.key|
      && (a.child[x] == NIL <==> c == NIL)
      && (c != NIL ==>
            && 0 <= a.child[x] < |a.key| && 0 <= c < |a.key|
            && a.child[x] in s.kids[x] && c in s.kids[x] && a.child[x] !in s.roots && c !in s.roots
            && a.left[a.child[x]] == c && a.right[c] == a.child[x])
  {
    var c := ChildTail(a, s, x);
    assert x in s.nodes;
    assert NodeOk(a, s, x, NIL);
    LinkRange(a, s, x, y, c);
    if c != NIL {
      var ch := a.child[x];
      assert ch == s.kids[x][0];
      RingBack(a.left, a.right, s.kids[x], ch);
      KidFacts(a, s, x, ch);
      KidFacts(a, s, x, c);
    }
  }

  /** Inserting after the last member appends. */
  lemma InsertAfterLast(s: seq<int>, x: int)
    requires Distinct(s) && s != []
    ensures InsertAfter(s, s[|s| - 1], x) == s + [x]
  {
    var p := IndexOf(s, s[|s| - 1]);
    assert p == |s| - 1;
    assert s[..p + 1] == s;
  }

  /** The cut of lines 228-243 of decreaseKey (and lines 190-207 of
      cascadingCut): `x` leaves its parent `y`'s child ring and joins the root
      list immediately left of `min`, which is not moved. The forest keeps its
      entries and every old root; `g`, a root of smallest key before, or `x`
      if its key is smaller, is one afterwards. */
  method CutToLeft(a: Arena, ghost s: Shape, min: int, x: int, y: int, ghost g: int) returns (a': Arena, ghost s': Shape)
    requires CutPre(a, s, min, x, y) && MinOk(a, s, g)
    ensures 0 <= min < |a.left| && CutDone(a, s, a.left[min], x, y, a') && s' == CutShape(s, a.left[min], x, y)
    ensures a'.right[x] == min && a'.left[min] == x
    ensures Forest(a', s') && Entries(a', s') == Entries(a, s)
    ensures 0 <= g < |a'.key| && MinOk(a', s', if a'.key[x] < a'.key[g] then x else g)
    ensures a'.key == a.key && s'.nodes == s.nodes && s'.rank == s.rank && s'.maxRank == s.maxRank
    ensures x in s'.roots && a'.parent[x] == NIL && !a'.mark[x] && min in s'.roots
    ensures forall r :: r in s.roots ==> r in s'.roots && a'.mark[r] == a.mark[r]
  {
    ghost var m := LeftAnchor(a, s, min, x, y);
    a' := CutLeftOf(a, min, x, y, s);
    s' := CutShape(s, m, x, y);
    CutKeepsTree(a, s, m, x, y, a');
    CutKeepsMin(a, s, m, x, y, a', g);
    CutRange(a, s, m, x, y);
    forall r | r in s.roots ensures r in s'.roots && a'.mark[r] == a.mark[r] {
      assert r != x && r in InsertAfter(s.roots, m, x);
    }
  }

  /** Lines 228-243 of decreaseKey on the arena: `x` is cut from `y` and
      lands between `min`'s left neighbour and `min`. */
  method CutLeftOf(a: Arena, min: int, x: int, y: int, ghost s: Shape) returns (a': Arena)
    requires CutPre(a, s, min, x, y)
    ensures 0 <= min < |a.left| && CutDone(a, s, a.left[min], x, y, a')
    ensures a'.right[x] == min && a'.left[min] == x
  {
    ghost var m := LeftAnchor(a, s, min, x, y);
    a' := a.(right := a.right[a.left[x] := a.right[x]]);
    a' := a'.(left := a'.left[a'.right[x] := a'.left[x]]);
    if a'.child[y] == x {
      if a'.right[x] == x {
        a' := a'.(child := a'.child[y := NIL]);
      } else {
        a' := a'.(child := a'.child[y := a'.right[x]]);
      }
    }
    a' := a'.(degree := a'.degree[y := a'.degree[y] - 1]);
    a' := a'.(parent := a'.parent[x := NIL]);
    a' := a'.(left := a'.left[x := a'.left[min]]);
    a' := a'.(right := a'.right[x := min]);
    a' := a'.(right := a'.right[a'.left[min] := x]);
    a' := a'.(left := a'.left[min := x]);
    a' := a'.(mark := a'.mark[x := false]);
  }

  /** `min`'s left neighbour is a root that a cut may splice after. */
  lemma LeftAnchor(a: Arena, s: Shape, min: int, x: int, y: int) returns (m: int)
    requires CutPre(a, s, min, x, y)
    ensures 0 <= min < |a.left| && m == a.left[min] && CutPre(a, s, m, x, y) && CutFits(a, s, m, x, y)
    ensures a.right[m] == min && min != x && m != x
    ensures a.left[x] != min && a.right[x] != min && a.left[x] != m && a.right[x] != m
    ensures a.right[x] == x ==> a.left[x] == x && a.child[y] == x
  {
    CutRange(a, s, min, x, y);
    RingBack(a.left, a.right, s.roots, min);
    m := a.left[min];
    CutRange(a, s, m, x, y);
    if a.right[x] == x {
      assert |s.kids[y]| == 1 && s.kids[y][0] == x by {
        assert x in s.kids[y];
      }
    }
  }

  /** cascadingCut: a root stays as it is; an unmarked non-root is marked
      and nothing else changes; a marked non-root is cut onto the root list
      left of `min` and the cut goes on at its former parent. `min` is never
      moved; `g`, a root of smallest key before, is one afterwards. Each step
      moves strictly up the ancestors, which is why it ends. */
  method CascadingCut(a: Arena, ghost s: Shape, min: int, y: int, ghost g: int) returns (a': Arena, ghost s': Shape)
    requires Forest(a, s) && MinOk(a, s, g) && y in s.nodes && min in s.roots
    ensures Forest(a', s') && MinOk(a', s', g) && min in s'.roots
    ensures a'.key == a.key && s'.nodes == s.nodes && s'.rank == s.rank && s'.maxRank == s.maxRank
    ensures forall r :: r in s.roots ==> r in s'.roots && a'.mark[r] == a.mark[r]
    ensures a.parent[y] == NIL ==> a' == a && s' == s
    ensures a.parent[y] != NIL && !a.mark[y] ==> a' == a.(mark := a.mark[y := true]) && s' == s
    ensures a.parent[y] != NIL && a.mark[y] ==> y in s'.roots && a'.parent[y] == NIL && !a'.mark[y]
    ensures a.parent[y] != NIL && a.mark[y] ==>
      var z := a.parent[y]; 0 <= z < |a'.key| && (a'.parent[z] == NIL || a'.mark[z])
    ensures a'.parent == Cascaded(a, s, y).parent && a'.mark == Cascaded(a, s, y).mark
    decreases s.maxRank - s.rank[y]
  {
    assert NodeOk(a, s, y, NIL);
    a', s' := a, s;
    var z := a.parent[y];
    if z != NIL {
      if !a.mark[y] {
        a' := a.(mark := a.mark[y := true]);
        TreeFrame(a, s, a', s, NIL);
      } else {
        assert NodeOk(a, s, z, NIL);
        ghost var r := RootOf(a, s, y);
        TreeWaive(a, s, y);
        var a1;
        ghost var s1;
        a1, s1 := CutToLeft(a, s, min, y, z, g);
        a', s' := CascadingCut(a1, s1, min, z, g);
        assert NodeOk(a', s', y, NIL);
        CascadeAfterCut(a, s, a1, s1, y, z);
        CascadeMarksParent(a, s, y);
      }
    }
  }

  /** decreaseKey: an unknown node (NIL) or a larger new key is rejected and
      nothing changes. Otherwise `x` holds `newKey`; it is cut onto the root
      list exactly when `newKey` is below its parent's key, and afterwards
      `min` is `x` exactly when `newKey` is below the old smallest key, so no
      key of the heap is below `min`'s. */
  method DecreaseKey(h: Heap, x: int, newKey: int)
    requires h.Valid() && (x == NIL || x in h.sh.nodes)
    modifies h
    ensures h.Valid() && h.n == old(h.n) && h.sh.nodes == old(h.sh.nodes)
    ensures x == NIL || newKey > old(h.a.key[x]) ==> h.a == old(h.a) && h.sh == old(h.sh) && h.min == old(h.min)
    ensures x != NIL && newKey <= old(h.a.key[x]) ==>
      && Entries(h.a, h.sh) == old(Entries(h.a, h.sh))[x := newKey]
      && 0 <= old(h.min) < |old(h.a.key)| && 0 <= h.min < |h.a.key| && h.a.key[h.min] <= newKey
      && h.min == (if newKey < old(h.a.key)[old(h.min)] then x else old(h.min))
    ensures x != NIL ==> old(h.a.parent[x]) == NIL || 0 <= old(h.a.parent[x]) < |old(h.a.key)|
    ensures x != NIL && newKey <= old(h.a.key[x]) ==>
      var y := old(h.a.parent[x]);
      if y != NIL && newKey < old(h.a.key)[y] then h.a.parent[x] == NIL && x in h.sh.roots && !h.a.mark[x]
      else h.a == old(h.a).(key := old(h.a.key)[x := newKey]) && h.sh == old(h.sh)
  {
    if x == NIL {
      return;
    }
    assert NodeOk(h.a, h.sh, x, NIL);
    if newKey > h.a.key[x] {
      return;
    }
    h.a, h.sh, h.min := Decrease(h.a, h.sh, h.min, h.n, x, newKey);
  }

  /** Lines 225-248 of decreaseKey, once `newKey` is accepted: `x` takes
      it, is cut onto the root list exactly when it is now below its
      parent's key (the parent then cascading), and `min` moves to `x`
      exactly when `newKey` is below `min`'s key. */
  method Decrease(a: Arena, ghost s: Shape, min: int, ghost n: int, x: int, newKey: int)
    returns (a': Arena, ghost s': Shape, min': int)
    requires Inv(a, s, min, n) && x in s.nodes && newKey <= a.key[x]
    ensures Inv(a', s', min', n) && s'.nodes == s.nodes
    ensures Entries(a', s') == Entries(a, s)[x := newKey]
    ensures 0 <= min < |a.key| && min' == (if newKey < a.key[min] then x else min) && a'.key[min'] <= newKey
    ensures 0 <= x < |a.key| && (a.parent[x] == NIL || 0 <= a.parent[x] < |a.key|)
    ensures if a.parent[x] != NIL && newKey < a.key[a.parent[x]] then a'.parent[x] == NIL && x in s'.roots && !a'.mark[x]
      else a' == a.(key := a.key[x := newKey]) && s' == s
  {
    MinIsSmallest(a, s, min, n, x);
    assert NodeOk(a, s, x, NIL);
    a' := a.(key := a.key[x := newKey]);
    s' := s;
    var parent := a'.parent[x];
    if parent != NIL && a'.key[x] < a'.key[parent] {
      DecreaseCutPre(a, s, min, n, x, newKey);
      ghost var g := if newKey < a.key[min] then x else min;
      a', s' := CutToLeft(a', s', min, x, parent, min);
      a', s' := CascadingCut(a', s', min, parent, g);
      assert NodeOk(a', s', x, NIL);
    } else {
      DecreaseInPlace(a, s, min, n, x, newKey);
    }
    min' := min;
    if a'.key[x] < a'.key[min] {
      min' := x;
    }
  }

  /** deleteKey: decreaseKey to INT_MIN, then extractMin. When every other
      key is above INT_MIN this removes exactly `x`; for an unknown node
      (NIL) the decrease is rejected and the old smallest entry goes instead.
      Either way a non-empty heap loses one node. The extract is the
      corrected `FibAltExtract.ExtractMin`, so the children of the removed
      node stay in the heap; the extractMin as written would lose them. */
  method DeleteKey(h: Heap, x: int)
    requires h.Valid() && (x == NIL || x in h.sh.nodes)
    requires x != NIL ==> INT_MIN <= h.a.key[x]
    modifies h
    ensures h.Valid()
    ensures old(h.min) == NIL ==> h.a == old(h.a) && h.sh == old(h.sh) && h.min == NIL && h.n == old(h.n)
    ensures old(h.min) != NIL ==> h.n == old(h.n) - 1
    ensures x == NIL && old(h.min) != NIL ==>
      h.sh.nodes == old(h.sh.nodes) - {old(h.min)} && Entries(h.a, h.sh) == old(Entries(h.a, h.sh)) - {old(h.min)}
    ensures x != NIL && (forall w :: w in old(h.sh.nodes) && w != x ==> INT_MIN < old(Entries(h.a, h.sh))[w]) ==>
      h.sh.nodes == old(h.sh.nodes) - {x} && Entries(h.a, h.sh) == old(Entries(h.a, h.sh)) - {x}
  {
    ghost var e0, m0 := Entries(h.a, h.sh), h.min;
    ghost var others := x != NIL && forall w :: w in h.sh.nodes && w != x ==> INT_MIN < e0[w];
    if x != NIL {
      HasRoot(h.a, h.sh, NIL, x);
    }
    DecreaseKey(h, x, INT_MIN);
    if m0 != NIL {
      HasRoot(h.a, h.sh, NIL, m0);
    }
    if others {
      assert Entries(h.a, h.sh)[x] == INT_MIN;
      assert h.min in h.sh.nodes && h.a.key[h.min] <= INT_MIN;
      assert h.min == x;
    }
    ExtractMin(h);
  }

  /** getRoots: for an empty heap, 0 and nothing written. Otherwise the
      roots read from `min` are copied into `root`, at least one and at most
      `size` of them, and sorted by degree and then by key; the slots past
      them are not touched. With room for all the roots, `root` holds each
      root once. */
  method GetRoots(h: Heap, root: array<int>, size: int) returns (number: int)
    requires h.Valid() && 1 <= root.Length && size <= root.Length
    modifies root
    ensures h.min == NIL ==> number == 0 && root[..] == old(root[..])
    ensures h.min != NIL ==> (
      && h.min in h.sh.roots
      && number == (if |h.sh.roots| <= size then |h.sh.roots| else if size < 1 then 1 else size)
      && multiset(root[..number]) == multiset(Rotation(h.sh.roots, IndexOf(h.sh.roots, h.min))[..number])
      && SortedByDegree(h.a.degree, h.a.key, root[..number])
      && root[number..] == old(root[number..]))
    ensures number == |h.sh.roots| ==> multiset(root[..number]) == multiset(h.sh.roots)
  {
    if h.min == NIL {
      return 0;
    }
    ghost var r := RootWalk(h.a, h.sh, h.min, h.n);
    number := CollectAndSort(h.a, h.min, root, size, r);
    assert r[..|r|] == r;
  }

  /** Lines 281-301 of getRoots: the roots read from `min`, as many as
      `GatherRoots` takes, sorted by degree and then by key. */
  method CollectAndSort(a: Arena, min: int, root: array<int>, size: int, ghost r: seq<int>) returns (number: int)
    requires Ring(a.left, a.right, r) && r[0] == min && InRange(a.degree, a.key, r)
    requires 1 <= root.Length && size <= root.Length
    modifies root
    ensures number == if |r| <= size then |r| else if size < 1 then 1 else size
    ensures multiset(root[..number]) == multiset(r[..number]) && root[number..] == old(root[number..])
    ensures SortedByDegree(a.degree, a.key, root[..number])
  {
    number := GatherRoots(a, min, root, size, r);
    ghost var got := root[..number];
    assert InRange(a.degree, a.key, got) by {
      forall k | 0 <= k < number ensures got[k] == r[k] {}
    }
    SortByDegree(root, number, a.degree, a.key);
  }

  /** Lines 282-289 of getRoots: the ring read from `min` is copied into
      `root` until it comes back to `min` or `size` slots are filled (at least
      one slot is always filled). */
  method GatherRoots(a: Arena, min: int, root: array<int>, size: int, ghost r: seq<int>) returns (number: int)
    requires Ring(a.left, a.right, r) && r[0] == min && 1 <= root.Length && size <= root.Length
    modifies root
    ensures number == if |r| <= size then |r| else if size < 1 then 1 else size
    ensures root[..number] == r[..number] && root[number..] == old(root[number..])
  {
    ghost var bound := if |r| <= size then |r| else if size < 1 then 1 else size;
    number := 0;
    var startNode := min;
    var currentNode := startNode;
    var more := true;
    while more
      invariant 0 <= number <= bound && (more <==> number < bound)
      invariant number < |r| ==> currentNode == r[number]
      invariant root[..number] == r[..number] && root[number..] == old(root[number..])
      decreases bound - number
    {
      root[number] := currentNode;
      number := number + 1;
      currentNode := a.right[currentNode];
      more := currentNode != startNode && number < size;
    }
  }
}
