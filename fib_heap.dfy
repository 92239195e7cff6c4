/**
 * The Fibonacci heap of HW2/hw2-2test.c over the shared node arena.
 *
 * New roots are spliced in to the right of `min`; extract-min snapshots the
 * root list before consolidating it through a degree table; decrease-key cuts
 * a node whose key drops below its parent's and cascades up marked ancestors.
 */
module FibHeap {
  import opened Rings
  import opened FibNodes
  import opened FibForest
  import opened FibTable
  import opened FibCut

  /** One filled slot of the rebuild loop of consolidate (lines 176-193 of
      HW2/hw2-2test.c): the slot's root starts the new ring, or is spliced in
      right of `min` and becomes `min` on a strictly smaller key. */
  method PlaceRoot(ghost a0: Arena, ghost s0: Shape, ghost t: seq<int>, i: int, a: Arena, ghost built: seq<int>, min: int, node: int)
    returns (a': Arena, ghost built': seq<int>, min': int)
    requires Filed(a0, s0, t) && Rebuilt(a0, s0, t, i, a, built, min) && i < |t| && t[i] != NIL && node == t[i]
    ensures Rebuilt(a0, s0, t, i + 1, a', built', min')
  {
    RebuildRanges(a0, s0, t, i, a, built, min);
    if min == NIL {
      a' := a.(left := a.left[node := node]);
      a' := a'.(right := a'.right[node := node]);
      min' := node;
      RebuildFirst(a0, s0, t, i, a, a');
      built' := [node];
    } else {
      a' := a.(left := a.left[node := min]);
      a' := a'.(right := a'.right[node := a'.right[min]]);
      a' := a'.(left := a'.left[a'.right[min] := node]);
      a' := a'.(right := a'.right[min := node]);
      assert a' == SpliceRight(a, min, node);
      min' := min;
      if a'.key[node] < a'.key[min] {
        min' := node;
      }
      RebuildSplice(a0, s0, t, i, a, built, min, min, a', min');
      built' := InsertAfter(built, min, node);
    }
  }

  /** Lines 244-259 of fibHeapCut: everything but the final `addToRootList`. */
  method CutOut(a: Arena, x: int, y: int) returns (a': Arena)
    requires Columns(a) && 0 <= x < |a.key| && 0 <= y < |a.key|
    requires 0 <= a.left[x] < |a.key| && 0 <= a.right[x] < |a.key|
    requires a.right[x] != x ==> a.left[x] != x
    ensures a' == CutArena(a, x, y)
  {
    a' := a;
    if a'.right[x] == x {
      a' := a'.(child := a'.child[y := NIL]);
    } else {
      if a'.child[y] == x {
        a' := a'.(child := a'.child[y := a'.right[x]]);
      }
      a' := a'.(right := a'.right[a'.left[x] := a'.right[x]]);
      a' := a'.(left := a'.left[a'.right[x] := a'.left[x]]);
    }
    a' := a'.(degree := a'.degree[y := a'.degree[y] - 1]);
    a' := a'.(parent := a'.parent[x := NIL]);
    a' := a'.(left := a'.left[x := x], right := a'.right[x := x]);
    a' := a'.(mark := a'.mark[x := false]);
  }

  /** The whole of fibHeapCut on the arena: the cut, then `addToRootList`
      splicing `x` in right of `min`. */
  method CutAndSplice(a: Arena, min: int, x: int, y: int, ghost s: Shape) returns (a': Arena)
    requires CutFits(a, s, min, x, y) && (a.right[x] != x ==> a.left[x] != x)
    ensures a' == CutResult(a, min, x, y)
  {
    a' := CutOut(a, x, y);
    a' := a'.(left := a'.left[x := min][a'.right[min] := x], right := a'.right[x := a'.right[min]][min := x]);
  }

  /** fibHeapCut on values: `x` leaves `y`'s children and joins the roots
      right of `min`, becoming `min` on a strictly smaller key; the forest,
      its entries and the heap order are kept. */
  method CutToRight(a: Arena, ghost s: Shape, min: int, x: int, y: int) returns (a': Arena, ghost s': Shape, min': int)
    requires CutPre(a, s, min, x, y) && MinOk(a, s, min)
    ensures CutFits(a, s, min, x, y) && CutDone(a, s, min, x, y, a') && s' == CutShape(s, min, x, y)
    ensures a'.key == a.key && min' == if a.key[x] < a.key[min] then x else min
    ensures Forest(a', s') && MinOk(a', s', min') && Entries(a', s') == Entries(a, s)
  {
    CutRange(a, s, min, x, y);
    a' := CutAndSplice(a, min, x, y, s);
    CutEffects(a, s, min, x, y);
    s' := CutShape(s, min, x, y);
    CutKeepsTree(a, s, min, x, y, a');
    CutKeepsMin(a, s, min, x, y, a', min);
    min' := min;
    if a'.key[x] < a'.key[min] {
      min' := x;
    }
  }

  /** The heap record: `min` and `n`, over the arena of its nodes. */
  class Heap {
    var a: Arena
    /** The root of smallest key, or NIL for an empty heap. */
    var min: int
    /** The number of nodes in the heap. */
    var n: int
    ghost var sh: Shape

    ghost predicate Valid()
      reads this
    {
      Inv(a, sh, min, n)
    }

    /** createFibHeap: an empty heap. */
    constructor ()
      ensures Valid() && sh.nodes == {} && sh.roots == [] && a.key == []
      ensures min == NIL && n == 0 && Entries(a, sh) == map[]
    {
      a := Arena([], [], [], [], [], [], []);
      min, n := NIL, 0;
      sh := Shape({}, [], [], [], 0);
    }

    /** createFibNode: a fresh node holding `k`, with no parent, no child,
        degree 0, no mark, and alone in its own ring. */
    method CreateFibNode(k: int) returns (x: int)
      requires Valid()
      modifies this
      ensures Valid() && x == old(|a.key|) && Detached(a, sh, x)
      ensures a == NewNode(old(a), k) && a.key[x] == k && !a.mark[x]
      ensures min == old(min) && n == old(n)
      ensures sh.nodes == old(sh.nodes) && sh.roots == old(sh.roots)
      ensures Entries(a, sh) == old(Entries(a, sh))
    {
      NewNodeKeepsInv(a, sh, min, n, k);
      x := |a.key|;
      a := NewNode(a, k);
      sh := sh.(kids := sh.kids + [[]], rank := sh.rank + [0]);
    }

    /** addToRootList: splice `x` in to the right of `min` (or make it the
        only root), and make it `min` if its key is strictly smaller.
        `AddRootRing` says what that does to the root ring. */
    method AddToRootList(x: int)
      requires Columns(a) && 0 <= x < |a.key|
      requires min == NIL <==> sh.roots == []
      requires min != NIL ==> min in sh.roots && 0 <= min < |a.key| && 0 <= a.right[min] < |a.key|
      modifies this
      ensures sh == old(sh).(roots := if old(min) == NIL then [x] else InsertAfter(old(sh.roots), old(min), x))
      ensures a == if old(min) == NIL then old(a) else SpliceRight(old(a), old(min), x)
      ensures min == if old(min) == NIL || a.key[x] < a.key[old(min)] then x else old(min)
      ensures n == old(n)
    {
      if min == NIL {
        min := x;
        sh := sh.(roots := [x]);
      } else {
        a := a.(left := a.left[x := min][a.right[min] := x], right := a.right[x := a.right[min]][min := x]);
        sh := sh.(roots := InsertAfter(sh.roots, min, x));
        if a.key[x] < a.key[min] {
          min := x;
        }
      }
    }

    /** removeFromRootList: unlink `x` from the root ring without touching
        `x`'s own links; a last root (one whose left link is itself) is left
        in place, and `min` is cleared if it was that root. `RingUnlink` says
        what remains of the ring. */
    method RemoveFromRootList(x: int)
      requires Columns(a) && 0 <= x < |a.key| && 0 <= a.left[x] < |a.key| && 0 <= a.right[x] < |a.key|
      requires x in sh.roots
      modifies this
      ensures sh == old(sh).(roots := Without(old(sh.roots), x))
      ensures old(a.left[x]) == x ==> a == old(a) && min == (if old(min) == x then NIL else old(min))
      ensures old(a.left[x]) != x ==> a == Unlinked(old(a), x) && min == old(min)
      ensures n == old(n)
    {
      if a.left[x] == x {
        if min == x {
          min := NIL;
        }
      } else {
        a := a.(left := a.left[a.right[x] := a.left[x]], right := a.right[a.left[x] := a.right[x]]);
      }
      sh := sh.(roots := Without(sh.roots, x));
    }

    /** fibHeapInsert: `x` joins the root ring next to `min`, `n` grows by one,
        and `min` moves to `x` exactly when the heap was empty or `x` has a
        strictly smaller key. */
    method Insert(x: int)
      requires Valid() && Detached(a, sh, x)
      modifies this
      ensures Valid()
      ensures n == old(n) + 1 && sh.nodes == old(sh.nodes) + {x}
      ensures Entries(a, sh) == old(Entries(a, sh))[x := a.key[x]]
      ensures a.key == old(a.key)
      ensures min == if old(min) == NIL || a.key[x] < a.key[old(min)] then x else old(min)
      ensures sh.roots == if old(min) == NIL then [x] else InsertAfter(old(sh.roots), old(min), x)
    {
      InsertKeepsInv(a, sh, min, n, x);
      AddToRootList(x);
      n := n + 1;
      sh := sh.(nodes := sh.nodes + {x});
    }

    /** Lines 205-222 of fibHeapLink, once `y` is off the root ring. */
    method Adopt(y: int, x: int)
      requires Columns(a) && 0 <= x < |a.key| && 0 <= y < |a.key|
      requires a.child[x] != NIL ==> 0 <= a.child[x] < |a.key| && a.child[x] != y && 0 <= a.right[a.child[x]] < |a.key|
      modifies this
      ensures a == Adopted(old(a), y, x)
      ensures sh == old(sh) && min == old(min) && n == old(n)
    {
      a := a.(parent := a.parent[y := x]);
      a := a.(left := a.left[y := y], right := a.right[y := y]);
      a := a.(mark := a.mark[y := false]);
      if a.child[x] == NIL {
        a := a.(child := a.child[x := y]);
      } else {
        var ch := a.child[x];
        a := a.(left := a.left[y := ch]);
        a := a.(right := a.right[y := a.right[ch]]);
        a := a.(left := a.left[a.right[ch] := y]);
        a := a.(right := a.right[ch := y]);
      }
      a := a.(degree := a.degree[x := a.degree[x] + 1]);
    }

    /** fibHeapLink: `y` leaves the root ring and joins the child ring of `x`
        right of `x`'s first child (or alone); `LinkEffects` and
        `LinkKeepsTree` say what that does to the forest. */
    method Link(y: int, x: int)
      requires 0 <= x < |a.child| && LinkPre(a, sh, x, y, a.child[x])
      modifies this
      ensures a == LinkArena(old(a), old(sh), x, y, old(a.child[x]))
      ensures sh == LinkShape(old(a), old(sh), x, y, old(a.child[x]))
      ensures min == old(min) && n == old(n)
    {
      LinkInTwoSteps(a, sh, x, y);
      RemoveFromRootList(y);
      Adopt(y, x);
      sh := LinkShape(old(a), old(sh), x, y, old(a.child[x]));
    }

    /** Lines 136-143 of fibHeapConsolidate: walk the root ring once from
        `min`, counting. `r` is the ring read from `min`. */
    method CountRoots(ghost r: seq<int>) returns (numRoots: int)
      requires Ring(a.left, a.right, r) && r[0] == min
      ensures numRoots == |r|
    {
      var x := min;
      numRoots := 0;
      var more := true;
      while more
        invariant 0 <= numRoots <= |r| && (more <==> numRoots < |r|)
        invariant numRoots < |r| ==> x == r[numRoots]
        decreases |r| - numRoots
      {
        numRoots := numRoots + 1;
        x := a.right[x];
        more := x != min;
      }
    }

    /** Lines 145-150 of fibHeapConsolidate: copy the root ring, in `right`
        order from `min`, into a fresh array. */
    method SnapshotRoots(numRoots: int, ghost r: seq<int>) returns (rootList: array<int>)
      requires Ring(a.left, a.right, r) && r[0] == min && numRoots == |r|
      ensures fresh(rootList) && rootList[..] == r
    {
      rootList := new int[numRoots];
      var x := min;
      for i := 0 to numRoots
        invariant forall k :: 0 <= k < i ==> rootList[k] == r[k]
        invariant i < |r| ==> x == r[i]
      {
        rootList[i] := x;
        x := a.right[x];
      }
    }

    /** Lines 152-169 of fibHeapConsolidate: each root of the snapshot in
        turn is carried up the degree table until it finds a free slot. */
    method MergeRoots(rootList: array<int>, A: array<int>)
      requires rootList != A && Forest(a, sh) && |sh.nodes| <= A.Length
      requires forall d :: 0 <= d < A.Length ==> A[d] == NIL
      requires Distinct(rootList[..]) && forall r :: r in rootList[..] <==> r in sh.roots
      modifies this, A
      ensures Forest(a, sh) && Filed(a, sh, A[..])
      ensures a.key == old(a.key) && sh.nodes == old(sh.nodes) && min == old(min) && n == old(n)
    {
      ghost var a0, s0 := a, sh;
      GatherStart(a, sh, A[..], rootList[..]);
      for i := 0 to rootList.Length
        invariant Gather(a0, s0, a, sh, A[..], rootList[i..])
        invariant min == old(min) && n == old(n)
      {
        var current := rootList[i];
        Pick(a0, s0, a, sh, A[..], rootList[i..]);
        assert rootList[i..][1..] == rootList[i + 1..];
        var d := a.degree[current];
        current, d := CarryUp(A, current, d, a0, s0, rootList[i + 1..]);
        ghost var t := A[..];
        A[d] := current;
        Settle(a0, s0, a, sh, t, rootList[i + 1..], current, d);
        assert A[..] == t[d := current];
      }
      assert rootList[rootList.Length..] == [];
    }

    /** Lines 156-167 of fibHeapConsolidate: while the slot of the carried
        root's degree is taken, link the two roots (the larger key going under
        the other; on equal keys the carried root stays on top), empty the
        slot and carry the winner to the next one. */
    method CarryUp(A: array<int>, current: int, d: int, ghost a0: Arena, ghost s0: Shape, ghost pend: seq<int>)
      returns (top: int, slot: int)
      requires Merging(a0, s0, a, sh, A[..], pend, current, d)
      modifies this, A
      ensures Merging(a0, s0, a, sh, A[..], pend, top, slot) && A[slot] == NIL
      ensures min == old(min) && n == old(n)
    {
      top, slot := current, d;
      while A[slot] != NIL
        invariant Merging(a0, s0, a, sh, A[..], pend, top, slot)
        invariant min == old(min) && n == old(n)
        decreases A.Length - slot
      {
        var y := A[slot];
        ghost var carried := top;
        if a.key[top] > a.key[y] {
          var tmp := top;
          top := y;
          y := tmp;
        }
        MergeStep(a0, s0, a, sh, A[..], pend, carried, slot, top, y);
        ghost var t := A[..];
        Link(y, top);
        A[slot] := NIL;
        assert A[..] == t[slot := NIL];
        slot := slot + 1;
      }
    }

    /** Lines 174-194 of fibHeapConsolidate: the roots held by the table, in
        slot order, are strung into a new root ring, each spliced in right of
        `min` and made `min` on a strictly smaller key. */
    method Rebuild(A: array<int>)
      requires Forest(a, sh) && Filed(a, sh, A[..])
      modifies this
      ensures Forest(a, sh) && MinOk(a, sh, min)
      ensures forall r :: r in sh.roots <==> r in old(sh.roots)
      ensures forall r1, r2 :: r1 in sh.roots && r2 in sh.roots && r1 != r2 ==> a.degree[r1] != a.degree[r2]
      ensures a.key == old(a.key) && sh.nodes == old(sh.nodes) && n == old(n)
    {
      ghost var a0, s0 := a, sh;
      ghost var built: seq<int> := [];
      RebuildStart(a, sh, A[..]);
      min := NIL;
      for i := 0 to A.Length
        invariant Rebuilt(a0, s0, A[..], i, a, built, min) && sh == s0 && n == old(n)
      {
        if A[i] == NIL {
          RebuildSkip(a0, s0, A[..], i, a, built, min);
        } else {
          a, built, min := PlaceRoot(a0, s0, A[..], i, a, built, min, A[i]);
        }
      }
      RebuildDone(a0, s0, A[..], a, built, min);
      sh := sh.(roots := built);
    }

    /** fibHeapConsolidate: afterwards no two roots share a degree, the forest
        and its entries are unchanged, and `min` is a root of smallest key. The
        degree table has `n` slots. */
    method Consolidate()
      requires Forest(a, sh) && |sh.nodes| <= n
      requires min == NIL <==> sh.roots == []
      requires min != NIL ==> min in sh.roots
      modifies this
      ensures Forest(a, sh) && MinOk(a, sh, min) && n == old(n)
      ensures a.key == old(a.key) && sh.nodes == old(sh.nodes)
      ensures forall r1, r2 :: r1 in sh.roots && r2 in sh.roots && r1 != r2 ==> a.degree[r1] != a.degree[r2]
    {
      if min == NIL {
        return;
      }
      var A := new int[n](_ => NIL);
      ghost var r := Rotation(sh.roots, IndexOf(sh.roots, min));
      RingRotate(a.left, a.right, sh.roots, IndexOf(sh.roots, min));
      var numRoots := CountRoots(r);
      var rootList := SnapshotRoots(numRoots, r);
      MergeRoots(rootList, A);
      Rebuild(A);
    }

    /** fibHeapExtractMin: on an empty heap, NIL and no change; otherwise
        the old `min`, which held the smallest key of the heap, leaves it: its
        children join the root list, the roots are consolidated and `n` drops
        by one. */
    method ExtractMin() returns (z: int)
      requires Valid()
      modifies this
      ensures Valid() && a.key == old(a.key)
      ensures old(min) == NIL ==> z == NIL && a == old(a) && sh == old(sh) && n == old(n)
      ensures old(min) != NIL ==> z == old(min) && z in old(sh.nodes) && n == old(n) - 1
      ensures old(min) != NIL ==> sh.nodes == old(sh.nodes) - {z}
      ensures old(min) != NIL ==> forall x :: x in old(sh.nodes) ==> a.key[z] <= a.key[x]
    {
      z := min;
      if z != NIL {
        forall x | x in sh.nodes ensures a.key[z] <= a.key[x] {
          MinIsSmallest(a, sh, min, n, x);
        }
        Detach(z);
        if z == a.right[z] {
          min := NIL;
        } else {
          min := a.right[z];
          Consolidate();
        }
        n := n - 1;
      }
    }

    /** Lines 92-107 of fibHeapExtractMin: every child of `z` joins the root
        list with no parent, then `z` leaves it (its own links untouched). */
    method Detach(z: int)
      requires Valid() && min == z && z != NIL
      modifies this
      ensures Forest(a, sh) && sh.nodes == old(sh.nodes) - {z} && |sh.nodes| < n && n == old(n)
      ensures a.key == old(a.key)
      ensures 0 <= z < |a.right| && (sh.roots == [] <==> a.right[z] == z)
      ensures a.right[z] != z ==> a.right[z] in sh.roots
      ensures forall c :: c in old(sh.kids[z]) ==> c in sh.roots && a.parent[c] == NIL
    {
      ghost var a0, s0 := a, sh;
      ExtractPre(a, sh, min, n);
      MoveChildrenToRoots(z);
      ghost var a1, s1 := a, sh;
      ExtractReady(a0, s0, a1, s1, z);
      RemoveFromRootList(z);
      sh := sh.(nodes := sh.nodes - {z});
      ExtractDone(a0, s0, a1, s1, z, a);
    }

    /** One turn of the child walk of fibHeapExtractMin (lines 97-98):
        child `i` of `z` goes on the root list and loses its parent. */
    method PromoteChild(z: int, x: int, ghost a0: Arena, ghost s0: Shape, ghost i: nat)
      requires 0 <= z < |s0.kids| && PromoteInv(a0, s0, a, sh, z, i) && i < |s0.kids[z]| && Distinct(s0.kids[z])
      requires x == s0.kids[z][i] && 0 <= x < |a.key| && x !in sh.roots && min == z && a.key[z] <= a.key[x]
      requires a.right[z] in sh.roots && 0 <= a.right[z] < |a.left|
      modifies this
      ensures PromoteInv(a0, s0, a, sh, z, i + 1) && min == z && n == old(n)
    {
      ghost var a1, s1 := a, sh;
      RingSplice(a.left, a.right, sh.roots, z, x);
      AddToRootList(x);
      a := a.(parent := a.parent[x := NIL]);
      PromoteStep(a0, s0, a1, s1, z, i, a, sh);
    }

    /** Lines 92-105 of fibHeapExtractMin: every child of `z` in turn is put
        on the root list right of `z` and loses its parent. The walk reads each
        child's right neighbour before the splice overwrites it, and stops on
        coming back to the first child. */
    method MoveChildrenToRoots(z: int)
      requires PromotePre(a, sh, z) && min == z
      modifies this
      ensures Promoted(old(a), old(sh), a, sh, z)
      ensures min == old(min) && n == old(n)
    {
      ghost var a0, s0 := a, sh;
      ghost var cs := sh.kids[z];
      PromoteStart(a, sh, z);
      var x := a.child[z];
      if x != NIL {
        var start := x;
        ghost var i := 0;
        var more := true;
        while more
          invariant 0 <= i <= |cs| && (more <==> i < |cs|)
          invariant i < |cs| ==> x == cs[i]
          invariant PromoteInv(a0, s0, a, sh, z, i) && min == z && n == old(n)
          decreases |cs| - i
        {
          PromoteNext(a0, s0, a, sh, z, i);
          var next := a.right[x];
          PromoteChild(z, x, a0, s0, i);
          x := next;
          i := i + 1;
          more := x != start;
        }
      }
      PromoteDone(a0, s0, a, sh, z);
    }

    /** fibHeapDecreaseKey: `x`'s key drops by exactly `delta`; `x` is cut
        from its parent exactly when its new key is below the parent's, and
        afterwards no key of the heap is below `min`'s, `x`'s included. */
    method DecreaseKey(x: int, delta: int)
      requires Valid() && x in sh.nodes && delta >= 0
      modifies this
      ensures Valid() && n == old(n) && sh.nodes == old(sh.nodes)
      ensures Entries(a, sh) == old(Entries(a, sh))[x := old(a.key[x]) - delta]
      ensures min != NIL && a.key[min] <= a.key[x]
      ensures 0 <= old(min) < |old(a.key)| && min == if a.key[x] < old(a.key)[old(min)] then x else old(min)
      ensures old(a.parent[x]) == NIL || 0 <= old(a.parent[x]) < |old(a.key)|
      ensures var y := old(a.parent[x]);
        if y != NIL && a.key[x] < old(a.key)[y] then a.parent[x] == NIL && x in sh.roots && !a.mark[x]
        else a == old(a).(key := a.key) && sh == old(sh)
    {
      ghost var a0, s0, k := a, sh, a.key[x] - delta;
      assert NodeOk(a, sh, x, NIL);
      a := a.(key := a.key[x := a.key[x] - delta]);
      var y := a.parent[x];
      if y != NIL && a.key[x] < a.key[y] {
        DecreaseCutPre(a0, s0, min, n, x, k);
        CutAndCascade(x, y);
      } else {
        DecreaseInPlace(a0, s0, min, n, x, k);
      }
      if a.key[x] < a.key[min] {
        min := x;
      }
    }

    /** Lines 232-233 of fibHeapDecreaseKey: cut `x` from `y`, then cascade
        from `y`. `x` ends up a parentless root and the forest keeps its
        entries. */
    method CutAndCascade(x: int, y: int)
      requires CutPre(a, sh, min, x, y) && MinOk(a, sh, min)
      modifies this
      ensures Forest(a, sh) && MinOk(a, sh, min) && n == old(n)
      ensures a.key == old(a.key) && sh.nodes == old(sh.nodes)
      ensures x in sh.roots && a.parent[x] == NIL && !a.mark[x]
      ensures 0 <= old(min) < |a.key| && min == if a.key[x] < a.key[old(min)] then x else old(min)
    {
      CutRange(a, sh, min, x, y);
      Cut(x, y);
      CascadingCut(y);
      assert NodeOk(a, sh, x, NIL);
    }

    /** fibHeapCut: `x` leaves its parent `y`'s child ring for the root
        list; see `CutEffects` for what changes and `CutKeepsTree` for the
        heap that results. */
    method Cut(x: int, y: int)
      requires CutPre(a, sh, min, x, y) && MinOk(a, sh, min)
      modifies this
      ensures CutFits(old(a), old(sh), old(min), x, y)
      ensures CutDone(old(a), old(sh), old(min), x, y, a)
      ensures sh == CutShape(old(sh), old(min), x, y)
      ensures min == if a.key[x] < a.key[old(min)] then x else old(min)
      ensures Forest(a, sh) && MinOk(a, sh, min) && Entries(a, sh) == old(Entries(a, sh))
      ensures n == old(n)
    {
      a, sh, min := CutToRight(a, sh, min, x, y);
    }


    /** fibHeapCascadingCut: a root stays as it is; an unmarked non-root is
        marked and nothing else changes; a marked non-root is cut and the cut
        goes on at its former parent. Each step moves strictly up the
        ancestors, which is why it ends. */
    method CascadingCut(y: int)
      requires Forest(a, sh) && MinOk(a, sh, min) && y in sh.nodes
      modifies this
      ensures Forest(a, sh) && MinOk(a, sh, min) && n == old(n)
      ensures a.key == old(a.key) && sh.nodes == old(sh.nodes)
      ensures sh.rank == old(sh.rank) && sh.maxRank == old(sh.maxRank)
      ensures forall r :: r in old(sh.roots) ==> r in sh.roots && a.mark[r] == old(a.mark[r])
      ensures old(a.parent[y]) == NIL ==> a == old(a) && sh == old(sh) && min == old(min)
      ensures old(a.parent[y]) != NIL && !old(a.mark[y]) ==>
        a == old(a).(mark := old(a.mark)[y := true]) && sh == old(sh) && min == old(min)
      ensures old(a.parent[y]) != NIL && old(a.mark[y]) ==> y in sh.roots && a.parent[y] == NIL && !a.mark[y]
      ensures old(a.parent[y]) != NIL && old(a.mark[y]) ==>
        var z := old(a.parent[y]); 0 <= z < |a.key| && (a.parent[z] == NIL || a.mark[z])
      ensures a.parent == Cascaded(old(a), old(sh), y).parent && a.mark == Cascaded(old(a), old(sh), y).mark
      ensures min == old(min)
      decreases sh.maxRank - sh.rank[y]
    {
      assert NodeOk(a, sh, y, NIL);
      var z := a.parent[y];
      if z != NIL {
        if !a.mark[y] {
          Mark(y);
        } else {
          ghost var a0, s0 := a, sh;
          assert NodeOk(a, sh, z, NIL);
          ghost var r := RootOf(a, sh, y);
          TreeWaive(a, sh, y);
          HasRoot(a, sh, NIL, y);
          Cut(y, z);
          ghost var a1, s1 := a, sh;
          CascadingCut(z);
          assert NodeOk(a, sh, y, NIL);
          CascadeAfterCut(a0, s0, a1, s1, y, z);
          CascadeMarksParent(a0, s0, y);
        }
      }
    }

    /** getRootsSortedByDegree: every root once, ordered by degree and then
        by key; none (count 0) for an empty heap. */
    method RootsSortedByDegree() returns (roots: array<int>, count: int)
      requires Valid()
      ensures 0 <= count <= roots.Length && count == |sh.roots| && (count == 0 <==> min == NIL)
      ensures multiset(roots[..count]) == multiset(sh.roots)
      ensures SortedByDegree(a.degree, a.key, roots[..count])
    {
      count := 0;
      if min == NIL {
        roots := new int[0];
        return;
      }
      ghost var r := RootWalk(a, sh, min, n);
      roots, count := CollectRoots(r);
      SortByDegree(roots, count, a.degree, a.key);
    }

    /** Lines 371-381 of getRootsSortedByDegree: `n` slots, filled by a walk
        of the root ring from `min`. `r` is the ring read from `min`. */
    method CollectRoots(ghost r: seq<int>) returns (roots: array<int>, count: int)
      requires Ring(a.left, a.right, r) && r[0] == min && |r| <= n
      ensures fresh(roots) && roots.Length == n && count == |r| && roots[..count] == r
    {
      var maxR := n;
      roots := new int[maxR](_ => NIL);
      var start := min;
      var cur := start;
      var idx := 0;
      var more := true;
      while more
        invariant 0 <= idx <= |r| && (more <==> idx < |r|)
        invariant idx < |r| ==> cur == r[idx]
        invariant forall k :: 0 <= k < idx ==> roots[k] == r[k]
        decreases |r| - idx
      {
        roots[idx] := cur;
        idx := idx + 1;
        cur := a.right[cur];
        more := cur != start;
      }
      count := idx;
    }

    /** Line 269 of fibHeapCascadingCut: marks do not enter the heap invariant. */
    method Mark(y: int)
      requires Forest(a, sh) && MinOk(a, sh, min) && 0 <= y < |a.mark|
      modifies this
      ensures a == old(a).(mark := old(a.mark)[y := true])
      ensures Forest(a, sh) && MinOk(a, sh, min)
      ensures sh == old(sh) && min == old(min) && n == old(n)
    {
      ghost var a0 := a;
      a := a.(mark := a.mark[y := true]);
      TreeFrame(a0, sh, a, sh, NIL);
    }

    /** fibHeapDelete: with every key non-negative, lowering `x`'s key to -1
        makes it the minimum, so the extract-min that follows removes exactly
        `x` and `n` drops by one. */
    method Delete(x: int)
      requires Valid() && x in sh.nodes
      requires forall w :: w in sh.nodes ==> 0 <= a.key[w]
      modifies this
      ensures Valid() && n == old(n) - 1 && sh.nodes == old(sh.nodes) - {x}
      ensures Entries(a, sh) == old(Entries(a, sh)) - {x}
    {
      ghost var e0 := Entries(a, sh);
      assert forall w :: w in e0 ==> 0 <= e0[w];
      var delta := a.key[x] + 1;
      DecreaseKey(x, delta);
      assert Entries(a, sh)[x] == -1;
      assert min in sh.nodes && Entries(a, sh)[min] == a.key[min] < 0;
      assert min == x;
      var m := ExtractMin();
      assert Entries(a, sh) == e0 - {x};
    }
  }

  /** The root ring read from `min`, as the walk on lines 375-381 of
      getRootsSortedByDegree visits it: every root once, at most `n` of them. */
  lemma RootWalk(a: Arena, s: Shape, min: int, n: int) returns (r: seq<int>)
    requires Inv(a, s, min, n) && min != NIL
    ensures min in s.roots && r == Rotation(s.roots, IndexOf(s.roots, min))
    ensures Ring(a.left, a.right, r) && r[0] == min && |r| <= n
    ensures multiset(r) == multiset(s.roots) && |r| == |s.roots|
    ensures InRange(a.degree, a.key, r)
  {
    DistinctBound(s.roots, s.nodes);
    var p := IndexOf(s.roots, min);
    r := Rotation(s.roots, p);
    RingRotate(a.left, a.right, s.roots, p);
    assert s.roots == s.roots[..p] + s.roots[p..];
    assert r == s.roots[p..] + s.roots[..p];
    forall k | 0 <= k < |r| ensures 0 <= r[k] < |a.degree| && r[k] < |a.key| {
      assert r[k] in s.roots;
    }
  }

  /** `u` comes no later than `v` in getRootsSortedByDegree's order: smaller
      degree first, and on equal degrees smaller key first. */
  predicate Before(deg: seq<int>, key: seq<int>, u: int, v: int)
    requires 0 <= u < |deg| && u < |key| && 0 <= v < |deg| && v < |key|
  {
    deg[u] < deg[v] || (deg[u] == deg[v] && key[u] <= key[v])
  }

  /** Every node of `s` is in range and comes no later than any node after it. */
  ghost predicate SortedByDegree(deg: seq<int>, key: seq<int>, s: seq<int>)
  {
    && InRange(deg, key, s)
    && (forall i, j :: 0 <= i < j < |s| ==> Before(deg, key, s[i], s[j]))
  }

  ghost predicate InRange(deg: seq<int>, key: seq<int>, s: seq<int>)
  {
    forall k :: 0 <= k < |s| ==> 0 <= s[k] < |deg| && s[k] < |key|
  }

  /** `b` comes no later than any node of `s`. */
  ghost predicate NoLater(deg: seq<int>, key: seq<int>, b: int, s: seq<int>)
    requires 0 <= b < |deg| && b < |key| && InRange(deg, key, s)
  {
    forall k :: 0 <= k < |s| ==> Before(deg, key, b, s[k])
  }

  /** Exchanging two entries keeps the multiset. */
  lemma SwapKeeps(deg: seq<int>, key: seq<int>, s: seq<int>, u: seq<int>, i: int, j: int, count: int)
    requires 0 <= i < j < count <= |s| && u == s[i := s[j]][j := s[i]] && InRange(deg, key, s[..count])
    ensures u[..count][..i] == s[..count][..i] && u[count..] == s[count..]
    ensures multiset(u[..count][i..]) == multiset(s[..count][i..])
    ensures InRange(deg, key, u[..count])
  {
    var t := s[..count][i..];
    assert u[..count][i..] == t[0 := t[j - i]][j - i := t[0]];
    assert InRange(deg, key, u[..count]) by {
      forall k | 0 <= k < count ensures 0 <= u[..count][k] < |deg| && u[..count][k] < |key| {
        assert s[..count][i] == s[i] && s[..count][j] == s[j] && s[..count][k] == s[k];
      }
    }
  }

  /** The first `i` slots of `s` are in order, and each comes no later than
      anything after it. */
  ghost predicate SortedUpTo(deg: seq<int>, key: seq<int>, s: seq<int>, i: int)
  {
    && 0 <= i <= |s| && InRange(deg, key, s)
    && (forall p, q :: 0 <= p < q < i ==> Before(deg, key, s[p], s[q]))
    && (forall p :: 0 <= p < i ==> NoLater(deg, key, s[p], s[i..]))
  }

  /** A pass that keeps slots `0` to `i - 1`, permutes the rest, and leaves in
      slot `i` a node no later than anything after it, extends the sorted part
      by one slot. */
  lemma PassExtends(deg: seq<int>, key: seq<int>, t: seq<int>, u: seq<int>, i: int)
    requires SortedUpTo(deg, key, t, i) && i < |t| && |u| == |t| && InRange(deg, key, u)
    requires u[..i] == t[..i] && multiset(u[i..]) == multiset(t[i..])
    requires NoLater(deg, key, u[i], u[i + 1..])
    ensures SortedUpTo(deg, key, u, i + 1)
  {
    forall p | 0 <= p < i ensures Before(deg, key, u[p], u[i]) && NoLater(deg, key, u[p], u[i + 1..]) {
      assert u[p] == t[p];
      forall k | i <= k < |u| ensures Before(deg, key, u[p], u[k]) {
        assert u[k] == u[i..][k - i];
        assert u[k] in multiset(t[i..]);
        var m :| 0 <= m < |t| - i && t[i..][m] == u[k];
      }
      var v := u[i + 1..];
      forall k | 0 <= k < |v| ensures Before(deg, key, u[p], v[k]) {
        assert v[k] == u[k + i + 1];
      }
    }
  }

  /** Lines 382-393 of getRootsSortedByDegree: an exchange sort of the first
      `count` slots; the slots past `count` are not touched. */
  method SortByDegree(roots: array<int>, count: int, deg: seq<int>, key: seq<int>)
    requires 0 <= count <= roots.Length && InRange(deg, key, roots[..count])
    modifies roots
    ensures SortedByDegree(deg, key, roots[..count])
    ensures multiset(roots[..count]) == multiset(old(roots[..count]))
    ensures roots[count..] == old(roots[count..])
  {
    for i := 0 to count
      invariant SortedUpTo(deg, key, roots[..count], i)
      invariant multiset(roots[..count]) == multiset(old(roots[..count]))
      invariant roots[count..] == old(roots[count..])
    {
      ghost var t := roots[..count];
      Pass(roots, i, count, deg, key);
      PassExtends(deg, key, t, roots[..count], i);
      assert roots[..count] == roots[..count][..i] + roots[..count][i..];
      assert t == t[..i] + t[i..];
    }
  }

  /** Lines 383-392 of getRootsSortedByDegree, one value of `i`: afterwards
      slot `i` holds a node no later than any node after it, and only the
      slots `i` to `count - 1` have been permuted among themselves. */
  method Pass(roots: array<int>, i: int, count: int, deg: seq<int>, key: seq<int>)
    requires 0 <= i < count <= roots.Length && InRange(deg, key, roots[..count])
    modifies roots
    ensures roots[..count][..i] == old(roots[..count])[..i] && roots[count..] == old(roots[count..])
    ensures multiset(roots[..count][i..]) == multiset(old(roots[..count])[i..])
    ensures InRange(deg, key, roots[..count])
    ensures NoLater(deg, key, roots[..count][i], roots[..count][i + 1..])
  {
    for j := i + 1 to count
      invariant roots[..count][..i] == old(roots[..count])[..i] && roots[count..] == old(roots[count..])
      invariant multiset(roots[..count][i..]) == multiset(old(roots[..count])[i..])
      invariant InRange(deg, key, roots[..count])
      invariant forall q :: i < q < j ==> Before(deg, key, roots[i], roots[q])
    {
      if deg[roots[i]] > deg[roots[j]] || (deg[roots[i]] == deg[roots[j]] && key[roots[i]] > key[roots[j]]) {
        Exchange(roots, i, j, count, deg, key);
      }
    }
    ghost var v := roots[..count][i + 1..];
    forall k | 0 <= k < |v| ensures Before(deg, key, roots[i], v[k]) {
      assert v[k] == roots[k + i + 1];
    }
  }

  /** The swap on lines 387-389: slots `i` and `j` trade places, which
      permutes the slots from `i` on and touches nothing else. */
  method Exchange(roots: array<int>, i: int, j: int, count: int, deg: seq<int>, key: seq<int>)
    requires 0 <= i < j < count <= roots.Length && InRange(deg, key, roots[..count])
    modifies roots
    ensures roots[..] == old(roots[..])[i := old(roots[j])][j := old(roots[i])]
    ensures roots[..count][..i] == old(roots[..count])[..i] && roots[count..] == old(roots[count..])
    ensures multiset(roots[..count][i..]) == multiset(old(roots[..count])[i..])
    ensures InRange(deg, key, roots[..count])
  {
    ghost var s := roots[..];
    roots[i], roots[j] := roots[j], roots[i];
    SwapKeeps(deg, key, s, roots[..], i, j, count);
    assert roots[..count] == roots[..][..count] && roots[count..] == roots[..][count..];
  }

  /** What the child walk of extract-min needs of the heap: `z` is a root of
      a consistent root ring, and its child ring is consistent, off the root
      ring, and holds no key below `z`'s. */
  ghost predicate PromotePre(a: Arena, s: Shape, z: int)
  {
    && Sized(a, s) && Distinct(s.roots) && z in s.roots && Ring(a.left, a.right, s.roots)
    && Distinct(s.kids[z]) && a.child[z] == Head(s.kids[z])
    && (s.kids[z] != [] ==> Ring(a.left, a.right, s.kids[z]))
    && (forall c :: c in s.kids[z] ==> c !in s.roots && a.key[z] <= a.key[c])
  }

  /** Every node off the ring `roots` has the links it had in `a0`. */
  ghost predicate LinksKept(a0: Arena, a: Arena, roots: seq<int>)
    requires |a.left| == |a0.left| == |a.right| == |a0.right|
  {
    forall y :: y !in roots && 0 <= y < |a.left| ==> a.left[y] == a0.left[y] && a.right[y] == a0.right[y]
  }

  /** The first `i` of `cs` have lost their parent; no node outside `cs` has. */
  ghost predicate ParentsCleared(a0: Arena, a: Arena, cs: seq<int>, i: nat)
    requires i <= |cs| && |a.parent| == |a0.parent|
    requires forall j :: 0 <= j < |cs| ==> 0 <= cs[j] < |a.parent|
  {
    && (forall j :: 0 <= j < i ==> a.parent[cs[j]] == NIL)
    && (forall y :: 0 <= y < |a.parent| && y !in cs ==> a.parent[y] == a0.parent[y])
  }

  /** The state after the first `i` children of `z` moved to the root list. */
  ghost predicate PromoteInv(a0: Arena, s0: Shape, a: Arena, s: Shape, z: int, i: nat)
    requires 0 <= z < |s0.kids|
  {
    var cs := s0.kids[z];
    && i <= |cs|
    && Sized(a, s) && s == s0.(roots := s.roots)
    && a == a0.(parent := a.parent, left := a.left, right := a.right)
    && |a.parent| == |a0.parent| && |a.left| == |a0.left| && |a.right| == |a0.right|
    && (forall j :: 0 <= j < |cs| ==> 0 <= cs[j] < |a.parent|)
    && Ring(a.left, a.right, s.roots) && z in s.roots && z in s0.roots
    && InsertAllAfter(s.roots, z, cs[i..]) == InsertAllAfter(s0.roots, z, cs)
    && (forall j :: i <= j < |cs| ==> cs[j] !in s.roots)
    && ParentsCleared(a0, a, cs, i)
    && LinksKept(a0, a, s.roots)
  }

  lemma PromoteStart(a: Arena, s: Shape, z: int)
    requires PromotePre(a, s, z)
    ensures 0 <= z < |s.kids| && PromoteInv(a, s, a, s, z, 0)
    ensures a.child[z] == NIL <==> s.kids[z] == []
    ensures s.kids[z] != [] ==> a.child[z] == s.kids[z][0]
  {
    assert s.kids[z][0..] == s.kids[z];
    if s.kids[z] != [] {
      assert forall j :: 0 <= j < |s.kids[z]| ==> 0 <= s.kids[z][j] < |a.parent|;
    }
  }

  /** Before moving child `i`: it may go on the root list, and its right
      neighbour is the next child, or the first one after the last. */
  lemma PromoteNext(a0: Arena, s0: Shape, a: Arena, s: Shape, z: int, i: nat)
    requires PromotePre(a0, s0, z) && PromoteInv(a0, s0, a, s, z, i) && i < |s0.kids[z]|
    ensures a.right[z] in s.roots && 0 <= a.right[z] < |a.left|
    ensures var cs := s0.kids[z];
      && 0 <= cs[i] < |a.key| && cs[i] !in s.roots && a.key[z] <= a.key[cs[i]]
      && (i + 1 < |cs| ==> a.right[cs[i]] == cs[i + 1] && cs[i + 1] != cs[0])
      && (i + 1 == |cs| ==> a.right[cs[i]] == cs[0])
  {
    var cs := s0.kids[z];
    assert cs[i] in cs;
    assert a.right[cs[i]] == a0.right[cs[i]];
    RingNeighbours(a.left, a.right, s.roots, z);
  }

  /** The splice of `x` right of `z` moves only links on the new root ring. */
  lemma StepLinks(a0: Arena, a: Arena, roots: seq<int>, z: int, x: int, a': Arena)
    requires |a.left| == |a0.left| == |a.right| == |a0.right| && LinksKept(a0, a, roots)
    requires z in roots && 0 <= z < |a.right| && a.right[z] in roots && 0 <= a.right[z] < |a.left| && 0 <= x < |a.left|
    requires a'.left == a.left[x := z][a.right[z] := x] && a'.right == a.right[x := a.right[z]][z := x]
    ensures |a'.left| == |a0.left| == |a'.right| == |a0.right|
    ensures LinksKept(a0, a', InsertAfter(roots, z, x))
  {
    forall y | y !in InsertAfter(roots, z, x) && 0 <= y < |a'.left|
      ensures a'.left[y] == a0.left[y] && a'.right[y] == a0.right[y]
    {
      assert y !in roots && y != x;
    }
  }

  lemma StepParents(a0: Arena, a: Arena, cs: seq<int>, i: nat, a': Arena)
    requires i < |cs| && |a.parent| == |a0.parent|
    requires forall j :: 0 <= j < |cs| ==> 0 <= cs[j] < |a.parent|
    requires ParentsCleared(a0, a, cs, i) && a'.parent == a.parent[cs[i] := NIL]
    ensures ParentsCleared(a0, a', cs, i + 1)
  {
    assert cs[i] in cs;
  }

  lemma StepOrder(roots: seq<int>, roots0: seq<int>, z: int, cs: seq<int>, i: nat)
    requires i < |cs| && z in roots && z in roots0 && Distinct(cs)
    requires InsertAllAfter(roots, z, cs[i..]) == InsertAllAfter(roots0, z, cs)
    requires forall j :: i <= j < |cs| ==> cs[j] !in roots
    ensures InsertAllAfter(InsertAfter(roots, z, cs[i]), z, cs[i + 1..]) == InsertAllAfter(roots0, z, cs)
    ensures forall j :: i + 1 <= j < |cs| ==> cs[j] !in InsertAfter(roots, z, cs[i])
  {
    assert cs[i..][0] == cs[i] && cs[i..][1..] == cs[i + 1..];
    forall j | i + 1 <= j < |cs| ensures cs[j] !in InsertAfter(roots, z, cs[i]) {
      assert cs[j] != cs[i];
    }
  }

  /** Moving child `i` keeps the walk's invariant. */
  lemma PromoteStep(a0: Arena, s0: Shape, a: Arena, s: Shape, z: int, i: nat, a': Arena, s': Shape)
    requires 0 <= z < |s0.kids| && PromoteInv(a0, s0, a, s, z, i) && i < |s0.kids[z]| && Distinct(s0.kids[z])
    requires a.right[z] in s.roots && 0 <= a.right[z] < |a.left|
    requires var x := s0.kids[z][i];
      && 0 <= x < |a.key| && x !in s.roots
      && s' == s.(roots := InsertAfter(s.roots, z, x))
      && a' == a.(left := a.left[x := z][a.right[z] := x], right := a.right[x := a.right[z]][z := x]).(parent := a.parent[x := NIL])
      && Ring(a'.left, a'.right, s'.roots)
    ensures PromoteInv(a0, s0, a', s', z, i + 1)
  {
    var cs := s0.kids[z];
    StepLinks(a0, a, s.roots, z, cs[i], a');
    StepParents(a0, a, cs, i, a');
    StepOrder(s.roots, s0.roots, z, cs, i);
  }

  /** The result of the child walk: the children of `z` sit right of `z` on
      the root ring in reverse child-ring order, they alone lost their parent,
      and no node off the root ring changed its links. */
  ghost predicate Promoted(a0: Arena, s0: Shape, a: Arena, s: Shape, z: int)
    requires 0 <= z < |s0.kids| && z in s0.roots
  {
    && s == s0.(roots := InsertAllAfter(s0.roots, z, s0.kids[z]))
    && Ring(a.left, a.right, s.roots)
    && a == a0.(parent := a.parent, left := a.left, right := a.right)
    && |a.parent| == |a0.parent| && |a.left| == |a0.left| && |a.right| == |a0.right| && |a.left| == |a.right|
    && (forall y :: 0 <= y < |a.parent| ==> a.parent[y] == if y in s0.kids[z] then NIL else a0.parent[y])
    && (forall y :: y !in s.roots && 0 <= y < |a.left| ==> a.left[y] == a0.left[y] && a.right[y] == a0.right[y])
  }

  lemma PromoteDone(a0: Arena, s0: Shape, a: Arena, s: Shape, z: int)
    requires PromotePre(a0, s0, z) && PromoteInv(a0, s0, a, s, z, |s0.kids[z]|)
    ensures Promoted(a0, s0, a, s, z)
  {
    var cs := s0.kids[z];
    assert cs[|cs|..] == [];
  }

  /** The heap invariant gives what the child walk of extract-min needs. */
  lemma ExtractPre(a: Arena, s: Shape, min: int, n: int)
    requires Inv(a, s, min, n) && min != NIL
    ensures PromotePre(a, s, min)
  {
    assert NodeOk(a, s, min, NIL);
    forall c | c in s.kids[min] ensures c !in s.roots && a.key[min] <= a.key[c] {
      assert NodeOk(a, s, c, NIL);
    }
  }

  /** After the child walk, `z` is on a consistent root ring, and it is
      alone there exactly when its links point to itself. */
  lemma ExtractReady(a0: Arena, s0: Shape, a: Arena, s: Shape, z: int)
    requires PromotePre(a0, s0, z) && Promoted(a0, s0, a, s, z)
    ensures Columns(a) && 0 <= z < |a.key| && 0 <= a.left[z] < |a.key| && 0 <= a.right[z] < |a.key|
    ensures z in s.roots && Distinct(s.roots)
    ensures a.left[z] == z <==> |s.roots| == 1
    ensures a.right[z] == z <==> |s.roots| == 1
  {
    RingSelf(a.left, a.right, s.roots, z);
  }

  /** Taking `z` off the root ring after its children joined it leaves a
      consistent ring of the other roots, empty exactly when `z`'s right link
      points to itself, and holding `z`'s right neighbour otherwise. */
  lemma ExtractRing(a0: Arena, s0: Shape, a1: Arena, s1: Shape, z: int, a2: Arena)
    requires Sized(a0, s0) && RootRing(a0, s0) && PromotePre(a0, s0, z) && Promoted(a0, s0, a1, s1, z)
    requires Columns(a1) && 0 <= z < |a1.key| && 0 <= a1.left[z] < |a1.key| && 0 <= a1.right[z] < |a1.key|
    requires a1.left[z] == z <==> |s1.roots| == 1
    requires a1.left[z] == z ==> a2 == a1
    requires a1.left[z] != z ==> a2 == Unlinked(a1, z)
    requires forall r :: r in s1.roots ==> r in s0.nodes
    ensures var s2 := s1.(nodes := s0.nodes - {z}, roots := Without(s1.roots, z));
      && Sized(a2, s2) && RootRing(a2, s2) && a2.key == a0.key && |s2.nodes| == |s0.nodes| - 1
      && 0 <= z < |a2.right| && (s2.roots == [] <==> a2.right[z] == z)
      && (a2.right[z] != z ==> a2.right[z] in s2.roots)
  {
    RingSelf(a1.left, a1.right, s1.roots, z);
    DistinctWithout(s1.roots, z);
    if |s1.roots| > 1 {
      RingUnlink(a1.left, a1.right, s1.roots, z);
    }
  }

  /** Lines 92-107 of fibHeapExtractMin leave a consistent forest of the
      nodes other than `z`, with `z`'s children parentless on its root ring. */
  lemma ExtractDone(a0: Arena, s0: Shape, a1: Arena, s1: Shape, z: int, a2: Arena)
    requires Sized(a0, s0) && Tree(a0, s0, NIL) && RootRing(a0, s0)
    requires PromotePre(a0, s0, z) && Promoted(a0, s0, a1, s1, z)
    requires Columns(a1) && 0 <= z < |a1.key| && 0 <= a1.left[z] < |a1.key| && 0 <= a1.right[z] < |a1.key|
    requires a1.left[z] == z <==> |s1.roots| == 1
    requires a1.left[z] == z ==> a2 == a1
    requires a1.left[z] != z ==> a2 == Unlinked(a1, z)
    ensures var s2 := s1.(nodes := s0.nodes - {z}, roots := Without(s1.roots, z));
      && Forest(a2, s2) && a2.key == a0.key && |s2.nodes| == |s0.nodes| - 1
      && 0 <= z < |a2.right| && (s2.roots == [] <==> a2.right[z] == z)
      && (a2.right[z] != z ==> a2.right[z] in s2.roots)
      && (forall c :: c in s0.kids[z] ==> c in s2.roots && a2.parent[c] == NIL)
  {
    RingSelf(a1.left, a1.right, s1.roots, z);
    ExtractKids(a0, s0, a1, s1, z);
    ExtractRing(a0, s0, a1, s1, z, a2);
    ExtractTree(a0, s0, a1, s1, z, a2);
    DistinctWithout(s1.roots, z);
  }

  /** After the child walk every root is a node, and the children of `z`
      are parentless roots other than `z`. */
  lemma ExtractKids(a0: Arena, s0: Shape, a1: Arena, s1: Shape, z: int)
    requires Sized(a0, s0) && Tree(a0, s0, NIL) && RootRing(a0, s0)
    requires PromotePre(a0, s0, z) && Promoted(a0, s0, a1, s1, z)
    ensures forall r :: r in s1.roots ==> r in s0.nodes
    ensures forall c :: c in s0.kids[z] ==> c in s1.roots && c != z && a1.parent[c] == NIL
  {
    assert NodeOk(a0, s0, z, NIL);
    forall c | c in s0.kids[z] ensures c != z {
      assert c !in s0.roots;
    }
  }

  /** ... and a consistent forest of the other nodes. */
  lemma ExtractTree(a0: Arena, s0: Shape, a1: Arena, s1: Shape, z: int, a2: Arena)
    requires Sized(a0, s0) && Tree(a0, s0, NIL) && RootRing(a0, s0)
    requires PromotePre(a0, s0, z) && Promoted(a0, s0, a1, s1, z)
    requires Columns(a1) && 0 <= z < |a1.key| && 0 <= a1.left[z] < |a1.key| && 0 <= a1.right[z] < |a1.key|
    requires a1.left[z] == z ==> a2 == a1
    requires a1.left[z] != z ==> a2 == Unlinked(a1, z)
    requires z in s1.roots && a1.left[z] in s1.roots && a1.right[z] in s1.roots
    ensures var s2 := s1.(nodes := s0.nodes - {z}, roots := Without(s1.roots, z));
      Sized(a2, s2) && Tree(a2, s2, NIL)
  {
    var s2 := s1.(nodes := s0.nodes - {z}, roots := Without(s1.roots, z));
    DistinctWithout(s1.roots, z);
    forall x | x in s2.nodes ensures NodeOk(a2, s2, x, NIL) {
      ExtractNode(a0, s0, a1, s1, z, a2, x);
    }
  }

  /** One node of the forest left by extract-min is in order. */
  lemma ExtractNode(a0: Arena, s0: Shape, a1: Arena, s1: Shape, z: int, a2: Arena, x: int)
    requires Sized(a0, s0) && Tree(a0, s0, NIL) && RootRing(a0, s0)
    requires PromotePre(a0, s0, z) && Promoted(a0, s0, a1, s1, z)
    requires a2 == a1.(left := a2.left, right := a2.right) && |a2.left| == |a1.left| && |a2.right| == |a1.right|
    requires forall y :: y !in s1.roots && 0 <= y < |a1.left| ==> a2.left[y] == a1.left[y] && a2.right[y] == a1.right[y]
    requires Distinct(s1.roots) && forall r :: r in Without(s1.roots, z) <==> r in s1.roots && r != z
    requires x in s0.nodes && x != z
    ensures var s2 := s1.(nodes := s0.nodes - {z}, roots := Without(s1.roots, z));
      Sized(a2, s2) && NodeOk(a2, s2, x, NIL)
  {
    var s2 := s1.(nodes := s0.nodes - {z}, roots := Without(s1.roots, z));
    assert NodeOk(a0, s0, x, NIL);
    assert NodeOk(a0, s0, z, NIL);
    if s0.kids[x] != [] {
      forall c | c in s0.kids[x] ensures c !in s1.roots && c != z {
        assert NodeOk(a0, s0, c, NIL);
      }
      forall i | 0 <= i < |s0.kids[x]| ensures s0.kids[x][i] !in s1.roots {
        assert s0.kids[x][i] in s0.kids[x];
      }
      RingFrame(a0.left, a0.right, a2.left, a2.right, s0.kids[x]);
    }
    ExtractPlaced(a0, s0, a1, s1, z, a2, x);
    assert KidsOk(a2, s2, x);
  }

  /** The node `x` sits where its parent link says in the forest left by extract-min. */
  lemma ExtractPlaced(a0: Arena, s0: Shape, a1: Arena, s1: Shape, z: int, a2: Arena, x: int)
    requires Sized(a0, s0) && Tree(a0, s0, NIL) && RootRing(a0, s0)
    requires PromotePre(a0, s0, z) && Promoted(a0, s0, a1, s1, z)
    requires a2 == a1.(left := a2.left, right := a2.right) && |a2.left| == |a1.left| && |a2.right| == |a1.right|
    requires Distinct(s1.roots) && forall r :: r in Without(s1.roots, z) <==> r in s1.roots && r != z
    requires x in s0.nodes && x != z
    ensures var s2 := s1.(nodes := s0.nodes - {z}, roots := Without(s1.roots, z));
      Sized(a2, s2) && Placed(a2, s2, x, NIL)
  {
    var s2 := s1.(nodes := s0.nodes - {z}, roots := Without(s1.roots, z));
    assert Sized(a2, s2);
    assert NodeOk(a0, s0, x, NIL);
    if x in s0.kids[z] {
      assert a2.parent[x] == NIL && x in s1.roots;
    } else if a0.parent[x] == NIL {
      assert a2.parent[x] == NIL && x in s0.roots;
    } else {
      var p := a0.parent[x];
      assert p != z;
      assert a2.parent[x] == p && x !in s1.roots;
      assert p in s2.nodes && x in s2.kids[p];
    }
  }
}
