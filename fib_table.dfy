/**
 * The degree table of consolidation (lines 126-197 of HW2/hw2-2test.c).
 *
 * Slot `d` of the table holds NIL or the one root of degree `d` met so far.
 * The merge phase carries each root of the snapshot up the table, linking
 * it with the root already in its slot; the rebuild phase strings the
 * table's roots into a fresh root ring and picks the smallest key.
 */
module FibTable {
  import opened Rings
  import opened FibNodes
  import opened FibForest

  /** A consistent forest whose roots form one ring (with no claim about `min`). */
  ghost predicate Forest(a: Arena, s: Shape)
  {
    Sized(a, s) && Tree(a, s, NIL) && RootRing(a, s)
  }

  /** `r` sits in the table slot named by its degree. */
  ghost predicate InTable(a: Arena, t: seq<int>, r: int)
  {
    0 <= r < |a.degree| && 0 <= a.degree[r] < |t| && t[a.degree[r]] == r
  }

  /** Every filled slot `d` holds a root of degree `d`. */
  ghost predicate TableOk(a: Arena, s: Shape, t: seq<int>)
  {
    forall d :: 0 <= d < |t| && t[d] != NIL ==> t[d] in s.roots && 0 <= t[d] < |a.degree| && a.degree[t[d]] == d
  }

  /** The table holds exactly the roots, one per degree. */
  ghost predicate Filed(a: Arena, s: Shape, t: seq<int>)
  {
    TableOk(a, s, t) && forall r :: r in s.roots ==> InTable(a, t, r)
  }

  /** Between two roots of the snapshot: the roots still pending and the
      roots in the table make up the root list, without overlap, and keys and
      nodes are those of `(a0, s0)`. */
  ghost predicate Gather(a0: Arena, s0: Shape, a: Arena, s: Shape, t: seq<int>, pend: seq<int>)
  {
    && Forest(a, s) && a.key == a0.key && s.nodes == s0.nodes && |s.nodes| <= |t|
    && TableOk(a, s, t)
    && Distinct(pend)
    && (forall r :: r in pend ==> r in s.roots && !InTable(a, t, r))
    && (forall r :: r in s.roots ==> r in pend || InTable(a, t, r))
  }

  /** Inside the merge loop: `cur`, of degree `d`, is the root being carried
      up the table; it is neither pending nor in the table. */
  ghost predicate Merging(a0: Arena, s0: Shape, a: Arena, s: Shape, t: seq<int>, pend: seq<int>, cur: int, d: int)
  {
    && Forest(a, s) && a.key == a0.key && s.nodes == s0.nodes && |s.nodes| <= |t|
    && TableOk(a, s, t)
    && Distinct(pend)
    && (forall r :: r in pend ==> r in s.roots && !InTable(a, t, r) && r != cur)
    && cur in s.roots && 0 <= cur < |a.degree| && 0 <= d < |t| && a.degree[cur] == d && t[d] != cur
    && (forall r :: r in s.roots ==> r in pend || InTable(a, t, r) || r == cur)
  }

  /** An empty table and a snapshot listing the roots once each. */
  lemma GatherStart(a: Arena, s: Shape, t: seq<int>, pend: seq<int>)
    requires Forest(a, s) && |s.nodes| <= |t| && forall d :: 0 <= d < |t| ==> t[d] == NIL
    requires Distinct(pend) && forall r :: r in pend <==> r in s.roots
    ensures Gather(a, s, a, s, t, pend)
  {
    forall r | r in pend ensures !InTable(a, t, r) {
      assert r in s.nodes;
    }
  }

  /** The first pending root starts its way up the table. */
  lemma Pick(a0: Arena, s0: Shape, a: Arena, s: Shape, t: seq<int>, pend: seq<int>)
    requires Gather(a0, s0, a, s, t, pend) && pend != []
    ensures 0 <= pend[0] < |a.degree| && 0 <= a.degree[pend[0]] < |t|
    ensures Merging(a0, s0, a, s, t, pend[1..], pend[0], a.degree[pend[0]])
  {
    var cur := pend[0];
    assert cur in pend;
    DegreeBound(a, s, cur, NIL);
    forall r | r in pend[1..] ensures r in pend && r != cur {
      var k :| 1 <= k < |pend| && pend[k] == r;
    }
  }

  /** The carried root lands in the free slot of its degree. */
  lemma Settle(a0: Arena, s0: Shape, a: Arena, s: Shape, t: seq<int>, pend: seq<int>, cur: int, d: int)
    requires Merging(a0, s0, a, s, t, pend, cur, d) && t[d] == NIL
    ensures Gather(a0, s0, a, s, t[d := cur], pend)
  {
  }

  /** One turn of the merge loop: `y`, the larger key of the carried root and
      the root in slot `d`, is linked under the other, `x`, which is carried
      on to slot `d + 1` while slot `d` is emptied. */
  lemma MergeStep(a0: Arena, s0: Shape, a: Arena, s: Shape, t: seq<int>, pend: seq<int>, cur: int, d: int, x: int, y: int)
    requires Merging(a0, s0, a, s, t, pend, cur, d) && t[d] != NIL
    requires (x == cur && y == t[d]) || (x == t[d] && y == cur)
    requires a.key[x] <= a.key[y]
    ensures 0 <= x < |a.child| && LinkPre(a, s, x, y, a.child[x])
    ensures Merging(a0, s0, LinkArena(a, s, x, y, a.child[x]), LinkShape(a, s, x, y, a.child[x]), t[d := NIL], pend, x, d + 1)
  {
    ChildAnchor(a, s, x);
    var c := a.child[x];
    var a', s' := LinkArena(a, s, x, y, c), LinkShape(a, s, x, y, c);
    LinkKeepsTree(a, s, x, y, c);
    LinkEffects(a, s, x, y, c);
    DistinctWithout(s.roots, y);
    assert x in s'.nodes;
    DegreeBound(a', s', x, NIL);
    MergeKeep(a0, s0, a, s, t, pend, cur, d, x, y, a', s');
  }

  /** The merge loop's invariant after a link, from what the link changes. */
  lemma MergeKeep(a0: Arena, s0: Shape, a: Arena, s: Shape, t: seq<int>, pend: seq<int>, cur: int, d: int, x: int, y: int, a': Arena, s': Shape)
    requires Merging(a0, s0, a, s, t, pend, cur, d) && t[d] != NIL
    requires (x == cur && y == t[d]) || (x == t[d] && y == cur)
    requires Forest(a', s') && a'.key == a.key && s'.nodes == s.nodes
    requires |a'.degree| == |a.degree| && a'.degree[x] == d + 1 && a'.degree[x] < |s'.nodes|
    requires forall w :: 0 <= w < |a.key| && w != x ==> a'.degree[w] == a.degree[w]
    requires forall r :: r in s'.roots <==> r in s.roots && r != y
    ensures Merging(a0, s0, a', s', t[d := NIL], pend, x, d + 1)
  {
    var t' := t[d := NIL];
    MergeTable(a, s, t, cur, d, x, y, a', s');
    forall r | r in pend ensures r in s'.roots && !InTable(a', t', r) && r != x {
      assert r != t[d];
    }
    forall r | r in s'.roots ensures r in pend || InTable(a', t', r) || r == x {
      if r != x && r !in pend {
        assert InTable(a, t, r);
      }
    }
  }

  /** The slots other than `d` still hold roots of their degree after the link. */
  lemma MergeTable(a: Arena, s: Shape, t: seq<int>, cur: int, d: int, x: int, y: int, a': Arena, s': Shape)
    requires Sized(a, s) && TableOk(a, s, t) && Distinct(s.roots)
    requires cur in s.roots && 0 <= cur < |a.degree| && 0 <= d < |t| && a.degree[cur] == d && t[d] != NIL
    requires (x == cur && y == t[d]) || (x == t[d] && y == cur)
    requires |a'.degree| == |a.degree| && (forall w :: 0 <= w < |a.key| && w != x ==> a'.degree[w] == a.degree[w])
    requires forall r :: r in s'.roots <==> r in s.roots && r != y
    ensures TableOk(a', s', t[d := NIL])
  {
    forall e | 0 <= e < |t| && t[d := NIL][e] != NIL
      ensures t[e] in s'.roots && 0 <= t[e] < |a'.degree| && a'.degree[t[e]] == e
    {
      assert t[e] != x && t[e] != y;
    }
  }

  /** Lines 174-194 of fibHeapConsolidate after slot `i`: the roots taken
      from slots below `i` form the ring `built`, headed by the smallest of
      their keys; the links of nodes off the old root list are untouched. */
  ghost predicate Rebuilt(a0: Arena, s0: Shape, t: seq<int>, i: int, a: Arena, built: seq<int>, min: int)
  {
    && 0 <= i <= |t| && Columns(a0) && Columns(a)
    && a == a0.(left := a.left, right := a.right)
    && (forall y :: 0 <= y < |a.left| && y !in s0.roots ==> a.left[y] == a0.left[y] && a.right[y] == a0.right[y])
    && Distinct(built)
    && (forall r :: r in built <==> r in s0.roots && 0 <= r < |a0.degree| && a0.degree[r] < i)
    && (built != [] ==> Ring(a.left, a.right, built))
    && (min == NIL <==> built == [])
    && (min != NIL ==> min in built && forall r :: r in built ==> a.key[min] <= a.key[r])
  }

  lemma RebuildStart(a: Arena, s: Shape, t: seq<int>)
    requires Forest(a, s)
    ensures Rebuilt(a, s, t, 0, a, [], NIL)
  {
    forall r | r in s.roots ensures 0 <= r < |a.degree| && a.degree[r] >= 0 {
      assert NodeOk(a, s, r, NIL);
    }
  }

  /** An empty slot: no root has that degree. */
  lemma RebuildSkip(a0: Arena, s0: Shape, t: seq<int>, i: int, a: Arena, built: seq<int>, min: int)
    requires Filed(a0, s0, t) && Rebuilt(a0, s0, t, i, a, built, min) && i < |t| && t[i] == NIL
    ensures Rebuilt(a0, s0, t, i + 1, a, built, min)
  {
    forall r | r in s0.roots ensures 0 <= r < |a0.degree| && a0.degree[r] != i {
      assert InTable(a0, t, r);
    }
  }

  /** The handles the rebuild touches for slot `i` are in range, and the
      slot's root is not yet on the new ring; `min`'s neighbours are on it. */
  lemma RebuildRanges(a0: Arena, s0: Shape, t: seq<int>, i: int, a: Arena, built: seq<int>, min: int)
    requires Filed(a0, s0, t) && Rebuilt(a0, s0, t, i, a, built, min) && i < |t| && t[i] != NIL
    ensures 0 <= t[i] < |a.left| && t[i] < |a.right| && t[i] !in built && t[i] in s0.roots
    ensures min != NIL ==> 0 <= min < |a.right| && 0 <= a.right[min] < |a.left| && a.right[min] in built
    ensures min != NIL ==> 0 <= min < |a.left| && 0 <= a.left[min] < |a.right| && a.left[min] in built
    ensures min != NIL ==> a.right[a.left[min]] == min
  {
    if min != NIL {
      RingBack(a.left, a.right, built, min);
    }
  }

  /** The first root found starts the new ring on its own. */
  lemma RebuildFirst(a0: Arena, s0: Shape, t: seq<int>, i: int, a: Arena, a': Arena)
    requires Filed(a0, s0, t) && Rebuilt(a0, s0, t, i, a, [], NIL) && i < |t| && t[i] != NIL
    requires 0 <= t[i] < |a.left| && t[i] < |a.right| && t[i] in s0.roots
    requires a' == a.(left := a.left[t[i] := t[i]], right := a.right[t[i] := t[i]])
    ensures Rebuilt(a0, s0, t, i + 1, a', [t[i]], t[i])
  {
    RingSingleton(a'.left, a'.right, t[i]);
    forall y | 0 <= y < |a'.left| && y !in s0.roots ensures a'.left[y] == a0.left[y] && a'.right[y] == a0.right[y] {
      assert y != t[i];
    }
    forall r | r in s0.roots && 0 <= r < |a0.degree| && a0.degree[r] < i + 1 ensures r == t[i] {
      assert InTable(a0, t, r);
    }
  }

  /** A later root is spliced in right of a root `m` of the new ring (`min`
      itself in HW2/hw2-2test.c, its left neighbour in HW2/hw2-2.c), and
      becomes `min` on a strictly smaller key. */
  lemma RebuildSplice(a0: Arena, s0: Shape, t: seq<int>, i: int, a: Arena, built: seq<int>, min: int, m: int, a': Arena, min': int)
    requires Filed(a0, s0, t) && Rebuilt(a0, s0, t, i, a, built, min) && i < |t| && t[i] != NIL && min != NIL
    requires 0 <= t[i] < |a.left| && t[i] < |a.right| && t[i] !in built && t[i] in s0.roots
    requires m in built && 0 <= m < |a.right| && 0 <= a.right[m] < |a.left| && a.right[m] in built
    requires a' == SpliceRight(a, m, t[i])
    requires min' == if a.key[t[i]] < a.key[min] then t[i] else min
    ensures Rebuilt(a0, s0, t, i + 1, a', InsertAfter(built, m, t[i]), min')
  {
    var x := t[i];
    var b' := InsertAfter(built, m, x);
    forall y | 0 <= y < |a'.left| && y !in s0.roots ensures a'.left[y] == a0.left[y] && a'.right[y] == a0.right[y] {
      assert y != x && y != m && y != a.right[m];
    }
    RingSplice(a.left, a.right, built, m, x);
    InsertAfterDistinct(built, m, x);
    forall r | r in s0.roots && 0 <= r < |a0.degree| && a0.degree[r] < i + 1 ensures r in b' {
      if a0.degree[r] == i {
        assert InTable(a0, t, r);
      }
    }
  }

  /** Once every slot is read, `built` is the root ring: the forest is intact,
      `min` is its smallest root, and no two roots share a degree. */
  lemma RebuildDone(a0: Arena, s0: Shape, t: seq<int>, a: Arena, built: seq<int>, min: int)
    requires Forest(a0, s0) && Filed(a0, s0, t) && Rebuilt(a0, s0, t, |t|, a, built, min)
    ensures Forest(a, s0.(roots := built)) && MinOk(a, s0.(roots := built), min)
    ensures a.key == a0.key && a.degree == a0.degree
    ensures forall r :: r in built <==> r in s0.roots
    ensures forall r1, r2 :: r1 in built && r2 in built && r1 != r2 ==> a.degree[r1] != a.degree[r2]
  {
    var s := s0.(roots := built);
    forall r | r in s0.roots ensures r in built {
      assert InTable(a0, t, r);
    }
    forall x | x in s0.nodes && a0.parent[x] != NIL ensures a.left[x] == a0.left[x] && a.right[x] == a0.right[x] {
      assert NodeOk(a0, s0, x, NIL);
    }
    TreeFrame(a0, s0, a, s, NIL);
    forall r1, r2 | r1 in built && r2 in built && r1 != r2 ensures a.degree[r1] != a.degree[r2] {
      assert InTable(a0, t, r1) && InTable(a0, t, r2);
    }
  }
}
