/**
 * The cut of decrease-key and the key changes around it, on the arena of
 * FibNodes.
 *
 * A cut takes a node `x` out of its parent `y`'s child ring and splices it in
 * as a new root to the right of a root `m`: `min` itself in fibHeapCut of
 * HW2/hw2-2test.c, `min`'s left neighbour in HW2/hw2-2.c (so that `x` lands
 * left of `min`). Before the cut the forest may be out of order between `x`
 * and `y` only (that is why `x` is cut); afterwards it is a heap-ordered
 * forest again.
 */
module FibCut {
  import opened Rings
  import opened FibNodes
  import opened FibForest

  /** What a cut needs: `x` has parent `y`, the forest is ordered except
      perhaps between the two, and `m` is a root. */
  ghost predicate CutPre(a: Arena, s: Shape, m: int, x: int, y: int)
  {
    && Sized(a, s) && Tree(a, s, x) && RootRing(a, s) && m in s.roots
    && x in s.nodes && y != NIL && a.parent[x] == y
  }

  /** Lines 244-259 of fibHeapCut on an arena: `x` leaves `y`'s child ring
      (`y.child` becomes NIL if `x` was alone there and moves on to `x`'s right
      neighbour if it was `x`), `y` loses one degree, and `x` is left
      parentless, unmarked and alone in its ring. */
  function CutArena(a: Arena, x: int, y: int): (a': Arena)
    requires Columns(a) && 0 <= x < |a.key| && 0 <= y < |a.key|
    requires 0 <= a.left[x] < |a.key| && 0 <= a.right[x] < |a.key|
    ensures Columns(a')
  {
    var b :=
      if a.right[x] == x then a.(child := a.child[y := NIL])
      else Unlinked(if a.child[y] == x then a.(child := a.child[y := a.right[x]]) else a, x);
    b.(degree := b.degree[y := b.degree[y] - 1], parent := b.parent[x := NIL],
       left := b.left[x := x], right := b.right[x := x], mark := b.mark[x := false])
  }

  /** The arena after the whole of fibHeapCut: the cut above, then
      `addToRootList` splicing `x` in right of `m`. */
  function CutResult(a: Arena, m: int, x: int, y: int): (a': Arena)
    requires Columns(a) && 0 <= x < |a.key| && 0 <= y < |a.key| && 0 <= m < |a.key|
    requires 0 <= a.left[x] < |a.key| && 0 <= a.right[x] < |a.key| && 0 <= a.right[m] < |a.key|
    requires m != x && m != a.left[x]
    ensures Columns(a')
  {
    SpliceRight(CutArena(a, x, y), m, x)
  }

  /** The forest after the cut: `x` has left `y`'s children and joined the
      roots, right of `m`. */
  function CutShape(s: Shape, m: int, x: int, y: int): (s': Shape)
    requires 0 <= y < |s.kids| && x in s.kids[y] && m in s.roots
    ensures s'.nodes == s.nodes && s'.rank == s.rank && s'.maxRank == s.maxRank
  {
    s.(kids := s.kids[y := Without(s.kids[y], x)], roots := InsertAfter(s.roots, m, x))
  }

  /** The link facts the cut functions need. */
  ghost predicate CutFits(a: Arena, s: Shape, m: int, x: int, y: int)
  {
    && Columns(a) && 0 <= x < |a.key| && 0 <= y < |a.key| && 0 <= m < |a.key|
    && 0 <= a.left[x] < |a.key| && 0 <= a.right[x] < |a.key| && 0 <= a.right[m] < |a.key|
    && m != x && m != a.left[x]
    && 0 <= y < |s.kids| && x in s.kids[y] && m in s.roots
  }

  /** What a cut reads of the arena is in range, and who is where. */
  lemma CutRange(a: Arena, s: Shape, m: int, x: int, y: int)
    requires CutPre(a, s, m, x, y)
    ensures CutFits(a, s, m, x, y) && |s.kids| == |a.key| && |s.rank| == |a.key|
    ensures y in s.nodes && x != y && x !in s.roots
    ensures Ring(a.left, a.right, s.kids[y]) && Distinct(s.kids[y]) && Distinct(s.roots)
    ensures a.child[y] == s.kids[y][0] && a.degree[y] == |s.kids[y]|
    ensures a.left[x] in s.kids[y] && a.right[x] in s.kids[y]
    ensures a.left[x] == x <==> |s.kids[y]| == 1
    ensures a.right[x] == x <==> |s.kids[y]| == 1
    ensures a.right[m] in s.roots && Ring(a.left, a.right, s.roots)
    ensures forall r :: r in s.roots ==> r !in s.kids[y] && r != x
  {
    assert NodeOk(a, s, x, x);
    assert NodeOk(a, s, y, x);
    RingSelf(a.left, a.right, s.kids[y], x);
    RingNeighbours(a.left, a.right, s.roots, m);
    forall r | r in s.roots ensures r !in s.kids[y] && r != x {
      assert NodeOk(a, s, r, x);
    }
  }

  /** The links after the cut: `x`'s old neighbours close the gap it leaves
      (when it had any), and `x` sits between `m` and `m`'s old right
      neighbour `rm`. */
  ghost predicate CutLinks(a: Arena, m: int, x: int, a': Arena)
    requires Columns(a) && 0 <= x < |a.key| && 0 <= m < |a.key|
    requires 0 <= a.left[x] < |a.key| && 0 <= a.right[x] < |a.key| && 0 <= a.right[m] < |a.key|
  {
    var l1 := if a.right[x] == x then a.left else a.left[a.right[x] := a.left[x]];
    var r1 := if a.right[x] == x then a.right else a.right[a.left[x] := a.right[x]];
    && a'.left == l1[x := m][a.right[m] := x]
    && a'.right == r1[x := a.right[m]][m := x]
  }

  /** Every field of every node after fibHeapCut, spelled out. */
  ghost predicate CutDone(a: Arena, s: Shape, m: int, x: int, y: int, a': Arena)
  {
    && CutFits(a, s, m, x, y) && Columns(a') && |a'.key| == |a.key|
    && a'.key == a.key && a'.parent == a.parent[x := NIL] && a'.mark == a.mark[x := false]
    && a'.degree == a.degree[y := a.degree[y] - 1]
    && a'.child == (if a.right[x] == x then a.child[y := NIL]
                    else if a.child[y] == x then a.child[y := a.right[x]] else a.child)
    && CutLinks(a, m, x, a')
  }

  /** fibHeapCut has these effects on the node fields and no others: `x`
      becomes parentless and unmarked; `y` loses one degree and its child
      pointer is cleared if `x` was its only child and moved off `x` if it
      pointed there; `x` is unlinked from its siblings and linked in right of
      `m`; keys and every other parent, mark, degree, child and link are
      untouched. */
  lemma CutEffects(a: Arena, s: Shape, m: int, x: int, y: int)
    requires CutFits(a, s, m, x, y)
    ensures CutDone(a, s, m, x, y, CutResult(a, m, x, y))
  {
  }

  /** In the forest, `x` leaves `y`'s children, one fewer, and joins the roots. */
  lemma CutMoves(s: Shape, m: int, x: int, y: int)
    requires 0 <= y < |s.kids| && x in s.kids[y] && m in s.roots && Distinct(s.kids[y])
    ensures var s' := CutShape(s, m, x, y);
      && x in s'.roots && x !in s'.kids[y] && |s'.kids[y]| == |s.kids[y]| - 1
      && (forall w :: w in s'.kids[y] <==> w in s.kids[y] && w != x)
      && (forall r :: r in s'.roots <==> r in s.roots || r == x)
      && (forall w :: 0 <= w < |s.kids| && w != y ==> s'.kids[w] == s.kids[w])
  {
    DistinctWithout(s.kids[y], x);
  }

  /** `y`'s remaining children still form a ring, headed by `y.child`. */
  lemma CutSiblings(a: Arena, s: Shape, m: int, x: int, y: int, a': Arena)
    requires CutDone(a, s, m, x, y, a') && Ring(a.left, a.right, s.kids[y]) && 2 <= |s.kids[y]|
    requires m !in s.kids[y] && a.right[m] !in s.kids[y] && a.child[y] == s.kids[y][0]
    ensures var w := Without(s.kids[y], x); Ring(a'.left, a'.right, w) && a'.child[y] == Head(w)
  {
    var w := Without(s.kids[y], x);
    RingSelf(a.left, a.right, s.kids[y], x);
    RingUnlink(a.left, a.right, s.kids[y], x);
    RingWithoutHead(a.left, a.right, s.kids[y], x);
    DistinctWithout(s.kids[y], x);
    var l1, r1 := a.left[a.right[x] := a.left[x]], a.right[a.left[x] := a.right[x]];
    forall m | m in w ensures m < |a'.left| && m < |a'.right| && a'.left[m] == l1[m] && a'.right[m] == r1[m] {
    }
    RingFrame(l1, r1, a'.left, a'.right, w);
  }

  /** Only `x`, its two old neighbours, `m` and `m`'s old right
      neighbour have their links rewritten. */
  lemma CutFrame(a: Arena, s: Shape, m: int, x: int, y: int, a': Arena, w: int)
    requires CutDone(a, s, m, x, y, a') && 0 <= w < |a.key|
    requires w != x && w != a.left[x] && w != a.right[x] && w != m && w != a.right[m]
    ensures a'.left[w] == a.left[w] && a'.right[w] == a.right[w]
  {
  }

  /** The root ring with `x` spliced in right of `m`. */
  lemma CutRoots(a: Arena, s: Shape, m: int, x: int, y: int, a': Arena)
    requires CutDone(a, s, m, x, y, a') && Ring(a.left, a.right, s.roots)
    requires x !in s.roots && a.left[x] !in s.roots && a.right[x] !in s.roots
    ensures Ring(a'.left, a'.right, InsertAfter(s.roots, m, x))
  {
    var l1 := if a.right[x] == x then a.left else a.left[a.right[x] := a.left[x]];
    var r1 := if a.right[x] == x then a.right else a.right[a.left[x] := a.right[x]];
    forall r | r in s.roots ensures r < |l1| && r < |r1| && l1[r] == a.left[r] && r1[r] == a.right[r] {
    }
    RingFrame(a.left, a.right, l1, r1, s.roots);
    RingSplice(l1, r1, s.roots, m, x);
    assert r1[m] == a.right[m];
  }

  /** The children of a node other than `y` are none of the nodes whose
      links a cut rewrites, so their ring survives. */
  lemma CutKids(a: Arena, s: Shape, m: int, x: int, y: int, w: int, a': Arena)
    requires CutPre(a, s, m, x, y) && CutDone(a, s, m, x, y, a') && w in s.nodes && w != y
    ensures var s' := CutShape(s, m, x, y); Sized(a', s') && KidsOk(a', s', w)
  {
    CutRange(a, s, m, x, y);
    CutMoves(s, m, x, y);
    var s' := CutShape(s, m, x, y);
    assert NodeOk(a, s, w, x);
    assert NodeOk(a, s, y, x);
    assert s'.kids[w] == s.kids[w];
    assert a'.degree[w] == a.degree[w] && a'.child[w] == a.child[w];
    forall c | c in s.kids[w]
      ensures 0 <= c < |a.key| && c != x && a'.parent[c] == w && a'.left[c] == a.left[c] && a'.right[c] == a.right[c]
    {
      assert NodeOk(a, s, c, x);
      assert c !in s.kids[y] && c !in s.roots;
      CutFrame(a, s, m, x, y, a', c);
    }
    if s.kids[w] != [] {
      RingFrame(a.left, a.right, a'.left, a'.right, s.kids[w]);
    }
  }

  /** `y` keeps a consistent child ring, one shorter. */
  lemma CutParentKids(a: Arena, s: Shape, m: int, x: int, y: int, a': Arena)
    requires CutPre(a, s, m, x, y) && CutDone(a, s, m, x, y, a')
    ensures var s' := CutShape(s, m, x, y); Sized(a', s') && KidsOk(a', s', y)
  {
    CutRange(a, s, m, x, y);
    CutMoves(s, m, x, y);
    assert NodeOk(a, s, y, x);
    assert m !in s.kids[y] && a.right[m] !in s.kids[y] by {
      assert NodeOk(a, s, m, x);
    }
    CutChildRing(a, s, m, x, y, a');
    forall c | c in Without(s.kids[y], x) ensures c in s.nodes && a'.parent[c] == y {
      assert c in s.kids[y] && c != x;
    }
  }

  /** The child ring of `y` without `x`: its head, length and links. */
  lemma CutChildRing(a: Arena, s: Shape, m: int, x: int, y: int, a': Arena)
    requires CutDone(a, s, m, x, y, a') && x in s.kids[y]
    requires Ring(a.left, a.right, s.kids[y]) && Distinct(s.kids[y])
    requires a.child[y] == s.kids[y][0] && a.degree[y] == |s.kids[y]|
    requires a.right[x] == x <==> |s.kids[y]| == 1
    requires m !in s.kids[y] && a.right[m] !in s.kids[y]
    ensures var w := Without(s.kids[y], x);
      && Distinct(w) && a'.degree[y] == |w| && a'.child[y] == Head(w)
      && (w != [] ==> Ring(a'.left, a'.right, w))
  {
    DistinctWithout(s.kids[y], x);
    if 2 <= |s.kids[y]| {
      CutSiblings(a, s, m, x, y, a');
    } else {
      assert Without(s.kids[y], x) == [];
    }
  }

  /** Every node stays where its parent link says, `x` now on the root ring. */
  lemma CutPlaced(a: Arena, s: Shape, m: int, x: int, y: int, w: int, a': Arena)
    requires CutPre(a, s, m, x, y) && CutDone(a, s, m, x, y, a') && w in s.nodes
    ensures var s' := CutShape(s, m, x, y);
      Sized(a', s') && Placed(a', s', w, NIL) && s'.rank[w] <= s'.maxRank
  {
    CutRange(a, s, m, x, y);
    CutMoves(s, m, x, y);
    assert NodeOk(a, s, w, x);
  }

  /** After the cut the forest is heap-ordered again, with no waiver. */
  lemma CutTree(a: Arena, s: Shape, m: int, x: int, y: int, a': Arena)
    requires CutPre(a, s, m, x, y) && CutDone(a, s, m, x, y, a')
    ensures var s' := CutShape(s, m, x, y); Sized(a', s') && Tree(a', s', NIL)
  {
    var s' := CutShape(s, m, x, y);
    forall w | w in s'.nodes ensures NodeOk(a', s', w, NIL) {
      CutPlaced(a, s, m, x, y, w, a');
      if w == y {
        CutParentKids(a, s, m, x, y, a');
      } else {
        CutKids(a, s, m, x, y, w, a');
      }
    }
  }

  /** A cut turns a forest out of order only between `x` and its parent
      into a heap-ordered forest with the same entries, whose root ring is the
      old one with `x` added right of `m`. */
  lemma CutKeepsTree(a: Arena, s: Shape, m: int, x: int, y: int, a': Arena)
    requires CutPre(a, s, m, x, y) && CutDone(a, s, m, x, y, a')
    ensures var s' := CutShape(s, m, x, y);
      && Sized(a', s') && Tree(a', s', NIL) && RootRing(a', s') && Entries(a', s') == Entries(a, s)
  {
    CutTree(a, s, m, x, y, a');
    CutRange(a, s, m, x, y);
    CutMoves(s, m, x, y);
    CutRoots(a, s, m, x, y, a');
  }

  /** After a cut the smallest root is the smaller-keyed of the old smallest
      root `min` and `x`. */
  lemma CutKeepsMin(a: Arena, s: Shape, m: int, x: int, y: int, a': Arena, min: int)
    requires CutPre(a, s, m, x, y) && CutFits(a, s, m, x, y) && MinOk(a, s, min) && a'.key == a.key
    requires var s' := CutShape(s, m, x, y); Sized(a', s') && RootRing(a', s')
    ensures var s' := CutShape(s, m, x, y);
      MinOk(a', s', if a.key[x] < a.key[min] then x else min)
  {
    CutRange(a, s, m, x, y);
    CutMoves(s, m, x, y);
  }

  /** Lowering a key can break order only between that node and its parent. */
  lemma LowerKey(a: Arena, s: Shape, x: int, k: int)
    requires Sized(a, s) && Tree(a, s, NIL) && x in s.nodes && k <= a.key[x]
    ensures Sized(a.(key := a.key[x := k]), s) && Tree(a.(key := a.key[x := k]), s, x)
  {
    var a' := a.(key := a.key[x := k]);
    forall w | w in s.nodes ensures NodeOk(a', s, w, x) {
      assert NodeOk(a, s, w, NIL);
      if a.parent[w] == x {
        assert NodeOk(a, s, x, NIL);
      }
      if s.kids[w] != [] {
        RingFrame(a.left, a.right, a'.left, a'.right, s.kids[w]);
      }
    }
  }

  /** Once `x` is no smaller than its parent, nothing is waived any more. */
  lemma Unwaive(a: Arena, s: Shape, x: int)
    requires Sized(a, s) && Tree(a, s, x) && x in s.nodes
    requires a.parent[x] == NIL || (0 <= a.parent[x] < |a.key| && a.key[a.parent[x]] <= a.key[x])
    ensures Tree(a, s, NIL)
  {
    forall w | w in s.nodes ensures NodeOk(a, s, w, NIL) {
      assert NodeOk(a, s, w, x);
    }
  }

  /** Lines 230-238 of fibHeapDecreaseKey when no cut is due (`x` is a root,
      or its new key `k` is still no smaller than its parent's): the heap
      stays valid with `x` holding `k`, once `min` moves to `x` on a strictly
      smaller key. */
  lemma DecreaseInPlace(a: Arena, s: Shape, min: int, n: int, x: int, k: int)
    requires Inv(a, s, min, n) && x in s.nodes && k <= a.key[x]
    requires a.parent[x] == NIL || (0 <= a.parent[x] < |a.key| && a.key[a.parent[x]] <= k)
    ensures 0 <= x < |a.key| && 0 <= min < |a.key|
    ensures var a' := a.(key := a.key[x := k]);
      Inv(a', s, if k < a.key[min] then x else min, n)
      && Entries(a', s) == Entries(a, s)[x := k]
  {
    MinIsSmallest(a, s, min, n, x);
    assert NodeOk(a, s, x, NIL);
    if a.parent[x] != NIL {
      MinIsSmallest(a, s, min, n, a.parent[x]);
    }
    var a' := a.(key := a.key[x := k]);
    LowerKey(a, s, x, k);
    Unwaive(a', s, x);
    if s.roots != [] {
      RingFrame(a.left, a.right, a'.left, a'.right, s.roots);
    }
    assert RootRing(a', s);
  }

  /** Lines 230-232 of fibHeapDecreaseKey when a cut is due: with the lower
      key in place, everything fibHeapCut needs holds. */
  lemma DecreaseCutPre(a: Arena, s: Shape, min: int, n: int, x: int, k: int)
    requires Inv(a, s, min, n) && x in s.nodes && k <= a.key[x] && a.parent[x] != NIL
    ensures var a' := a.(key := a.key[x := k]);
      CutPre(a', s, min, x, a.parent[x]) && MinOk(a', s, min) && Entries(a', s) == Entries(a, s)[x := k]
  {
    var a' := a.(key := a.key[x := k]);
    LowerKey(a, s, x, k);
    HasRoot(a, s, NIL, x);
    assert NodeOk(a, s, x, NIL);
    if s.roots != [] {
      RingFrame(a.left, a.right, a'.left, a'.right, s.roots);
    }
    assert RootRing(a', s);
  }

  /** The parent and mark columns after cascadingCut from `y`: a root is
      left alone; an unmarked non-root is marked; a marked non-root is cut
      (parentless and unmarked) and the cascade goes on at its former parent.
      Every other field is as in `a`. */
  ghost function Cascaded(a: Arena, s: Shape, y: int): (c: Arena)
    requires Sized(a, s) && Tree(a, s, NIL) && y in s.nodes
    ensures c == a.(parent := c.parent, mark := c.mark)
    ensures |c.parent| == |a.parent| && |c.mark| == |a.mark|
    decreases s.maxRank - s.rank[y]
  {
    assert NodeOk(a, s, y, NIL);
    var z := a.parent[y];
    if z == NIL then a
    else if !a.mark[y] then a.(mark := a.mark[y := true])
    else
      assert NodeOk(a, s, z, NIL);
      var b := Cascaded(a, s, z);
      b.(parent := b.parent[y := NIL], mark := b.mark[y := false])
  }

  /** `w` is a proper ancestor of `y`: following parent links up from `y`
      reaches it. */
  ghost predicate Above(a: Arena, s: Shape, w: int, y: int)
    requires Sized(a, s) && Tree(a, s, NIL) && y in s.nodes
    decreases s.maxRank - s.rank[y]
  {
    assert NodeOk(a, s, y, NIL);
    var z := a.parent[y];
    z != NIL && (z == w || (assert NodeOk(a, s, z, NIL); Above(a, s, w, z)))
  }

  /** The cascade ends with `y` a root or marked, and it changes the parent
      or the mark of no node but `y` and its ancestors. */
  lemma {:induction false} CascadeReach(a: Arena, s: Shape, y: int)
    requires Sized(a, s) && Tree(a, s, NIL) && y in s.nodes
    ensures var c := Cascaded(a, s, y); c.parent[y] == NIL || c.mark[y]
    ensures var c := Cascaded(a, s, y);
      forall w :: 0 <= w < |a.key| && w != y && !Above(a, s, w, y) ==>
        c.parent[w] == a.parent[w] && c.mark[w] == a.mark[w]
    decreases s.maxRank - s.rank[y]
  {
    assert NodeOk(a, s, y, NIL);
    var z := a.parent[y];
    if z != NIL && a.mark[y] {
      assert NodeOk(a, s, z, NIL);
      CascadeReach(a, s, z);
    }
  }

  /** A marked non-root's cascade leaves its former parent a root or marked. */
  lemma CascadeMarksParent(a: Arena, s: Shape, y: int)
    requires Sized(a, s) && Tree(a, s, NIL) && y in s.nodes && a.parent[y] != NIL && a.mark[y]
    ensures 0 <= a.parent[y] < |a.key|
    ensures var c := Cascaded(a, s, y); c.parent[a.parent[y]] == NIL || c.mark[a.parent[y]]
  {
    assert NodeOk(a, s, y, NIL);
    var z := a.parent[y];
    assert NodeOk(a, s, z, NIL);
    CascadeReach(a, s, z);
  }

  /** Cutting `y` (it alone loses its parent and mark) does not change the
      cascade from a node of higher rank, apart from `y` itself. */
  lemma {:induction false} CascadeAfterCut(a: Arena, s: Shape, a': Arena, s': Shape, y: int, z: int)
    requires Sized(a, s) && Tree(a, s, NIL) && Sized(a', s') && Tree(a', s', NIL)
    requires s'.nodes == s.nodes && s'.rank == s.rank && s'.maxRank == s.maxRank
    requires y in s.nodes && z in s.nodes && s.rank[y] < s.rank[z]
    requires a'.parent == a.parent[y := NIL] && a'.mark == a.mark[y := false]
    ensures Cascaded(a', s', z).parent == Cascaded(a, s, z).parent[y := NIL]
    ensures Cascaded(a', s', z).mark == Cascaded(a, s, z).mark[y := false]
    decreases s.maxRank - s.rank[z]
  {
    assert NodeOk(a, s, z, NIL);
    var p := a.parent[z];
    if p != NIL && a.mark[z] {
      assert NodeOk(a, s, p, NIL);
      CascadeAfterCut(a, s, a', s', y, p);
    }
  }
}
