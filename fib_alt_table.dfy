/**
 * The consolidation of HW2/hw2-2.c over the heap record of `FibHeap`.
 *
 * Its rebuild phase strings the roots held by the degree table into a new
 * root ring, splicing each one in to the LEFT of `min` (where
 * HW2/hw2-2test.c splices to the right). The merge phase before it is the
 * snapshot merge of `FibHeap`: see `Consolidate`.
 */
module FibAltTable {
  import opened Rings
  import opened FibNodes
  import opened FibTable
  import opened FibHeap

  /** Lines 130-147 of consolidate: the roots held by the table, in slot
      order, form the new root ring, each spliced in left of `min` and made
      `min` on a strictly smaller key. */
  method Rebuild(h: Heap, A: array<int>)
    requires Forest(h.a, h.sh) && Filed(h.a, h.sh, A[..])
    modifies h
    ensures Forest(h.a, h.sh) && MinOk(h.a, h.sh, h.min)
    ensures forall r :: r in h.sh.roots <==> r in old(h.sh.roots)
    ensures forall r1, r2 :: r1 in h.sh.roots && r2 in h.sh.roots && r1 != r2 ==> h.a.degree[r1] != h.a.degree[r2]
    ensures h.a.key == old(h.a.key) && h.sh.nodes == old(h.sh.nodes) && h.n == old(h.n)
  {
    ghost var a0, s0 := h.a, h.sh;
    ghost var built: seq<int> := [];
    RebuildStart(h.a, h.sh, A[..]);
    h.min := NIL;
    for i := 0 to A.Length
      invariant Rebuilt(a0, s0, A[..], i, h.a, built, h.min) && h.sh == s0 && h.n == old(h.n)
    {
      if A[i] == NIL {
        RebuildSkip(a0, s0, A[..], i, h.a, built, h.min);
      } else {
        h.a, built, h.min := PlaceRootLeft(a0, s0, A[..], i, h.a, built, h.min, A[i]);
      }
    }
    RebuildDone(a0, s0, A[..], h.a, built, h.min);
    h.sh := h.sh.(roots := built);
  }

  /** One filled slot of the rebuild loop (lines 132-146): the slot's root
      starts the new ring, or is spliced in left of `min` and becomes `min`
      on a strictly smaller key. */
  method PlaceRootLeft(ghost a0: Arena, ghost s0: Shape, ghost t: seq<int>, i: int, a: Arena, ghost built: seq<int>, min: int, node: int)
    returns (a': Arena, ghost built': seq<int>, min': int)
    requires Filed(a0, s0, t) && Rebuilt(a0, s0, t, i, a, built, min) && i < |t| && t[i] != NIL && node == t[i]
    ensures Rebuilt(a0, s0, t, i + 1, a', built', min')
  {
    RebuildRanges(a0, s0, t, i, a, built, min);
    if min == NIL {
      min' := node;
      a' := a.(left := a.left[node := node]);
      a' := a'.(right := a'.right[node := node]);
      RebuildFirst(a0, s0, t, i, a, a');
      built' := [node];
    } else {
      var m := a.left[min];
      a' := a.(left := a.left[node := m]);
      a' := a'.(right := a'.right[node := min]);
      a' := a'.(right := a'.right[m := node]);
      a' := a'.(left := a'.left[min := node]);
      assert a' == SpliceRight(a, m, node);
      min' := min;
      if a'.key[node] < a'.key[min] {
        min' := node;
      }
      RebuildSplice(a0, s0, t, i, a, built, min, m, a', min');
      built' := InsertAfter(built, m, node);
    }
  }

  /** consolidate: afterwards no two roots share a degree, the forest and
      its entries are unchanged, and `min` is a root of smallest key. The
      merge phase is the snapshot merge of `FibHeap.Heap.MergeRoots`, and the
      degree table has `n` slots. */
  method Consolidate(h: Heap)
    requires Forest(h.a, h.sh) && |h.sh.nodes| <= h.n
    requires h.min == NIL <==> h.sh.roots == []
    requires h.min != NIL ==> h.min in h.sh.roots
    modifies h
    ensures Forest(h.a, h.sh) && MinOk(h.a, h.sh, h.min) && h.n == old(h.n)
    ensures h.a.key == old(h.a.key) && h.sh.nodes == old(h.sh.nodes)
    ensures forall r1, r2 :: r1 in h.sh.roots && r2 in h.sh.roots && r1 != r2 ==> h.a.degree[r1] != h.a.degree[r2]
  {
    if h.min == NIL {
      return;
    }
    var A := new int[h.n](_ => NIL);
    ghost var r := Rotation(h.sh.roots, IndexOf(h.sh.roots, h.min));
    RingRotate(h.a.left, h.a.right, h.sh.roots, IndexOf(h.sh.roots, h.min));
    var numRoots := h.CountRoots(r);
    var rootList := h.SnapshotRoots(numRoots, r);
    h.MergeRoots(rootList, A);
    Rebuild(h, A);
  }
}
