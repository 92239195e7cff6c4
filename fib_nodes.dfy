/**
 * The node and heap records shared by both Fibonacci heap implementations.
 *
 * Nodes live in an arena: the node with handle `x` has fields `key[x]`,
 * `degree[x]`, `parent[x]`, `child[x]`, `left[x]`, `right[x]` and `mark[x]`,
 * and NIL stands for the null pointer. The heap record itself is `min` and `n`.
 *
 * A `Shape` gives the abstract forest the pointers encode: the live handles,
 * the root ring and every child ring as sequences in `right` order, and a rank
 * that strictly grows from child to parent (so following parent links always
 * ends at a root).
 */
module FibNodes {
  import opened Rings

  /** The node records, one column per field of a node. */
  datatype Arena = Arena(
    key: seq<int>, degree: seq<int>, parent: seq<int>, child: seq<int>,
    left: seq<int>, right: seq<int>, mark: seq<bool>)

  /** The forest the pointers of an arena are meant to encode. */
  datatype Shape = Shape(
    nodes: set<int>, roots: seq<int>, kids: seq<seq<int>>, rank: seq<nat>, maxRank: nat)

  /** Every column covers the same handles. */
  ghost predicate Columns(a: Arena)
  {
    && |a.degree| == |a.key| && |a.parent| == |a.key| && |a.child| == |a.key|
    && |a.left| == |a.key| && |a.right| == |a.key| && |a.mark| == |a.key|
  }

  /** Every column and the shape cover the same handles, and live handles are in range. */
  ghost predicate Sized(a: Arena, s: Shape)
  {
    && |a.degree| == |a.key| && |a.parent| == |a.key| && |a.child| == |a.key|
    && |a.left| == |a.key| && |a.right| == |a.key| && |a.mark| == |a.key|
    && |s.kids| == |a.key| && |s.rank| == |a.key|
    && (forall x :: x in s.nodes ==> 0 <= x < |a.key|)
  }

  /** The child ring of `x` is consistent: `child[x]` is its first member,
      `degree[x]` its size, and every member is live and names `x` as parent. */
  ghost predicate KidsOk(a: Arena, s: Shape, x: int)
    requires Sized(a, s) && 0 <= x < |a.key|
  {
    && Distinct(s.kids[x])
    && a.degree[x] == |s.kids[x]|
    && a.child[x] == Head(s.kids[x])
    && (s.kids[x] != [] ==> Ring(a.left, a.right, s.kids[x]))
    && (forall c :: c in s.kids[x] ==> c in s.nodes && a.parent[c] == x)
  }

  /** `x` sits where its parent link says: a parentless node is on the root
      ring; any other node is in its parent's child ring, below a parent of
      higher rank and no larger key (that last check waived for `e`). */
  ghost predicate Placed(a: Arena, s: Shape, x: int, e: int)
    requires Sized(a, s) && x in s.nodes
  {
    if a.parent[x] == NIL then x in s.roots
    else
      && x !in s.roots && a.parent[x] in s.nodes && x in s.kids[a.parent[x]]
      && s.rank[x] < s.rank[a.parent[x]]
      && (x != e ==> a.key[a.parent[x]] <= a.key[x])
  }

  /** Everything the forest invariant says about the one node `x`. */
  ghost predicate NodeOk(a: Arena, s: Shape, x: int, e: int)
    requires Sized(a, s) && x in s.nodes
  {
    Placed(a, s, x, e) && KidsOk(a, s, x) && s.rank[x] <= s.maxRank
  }

  /** The forest invariant, with heap order waived only between `e` and its parent. */
  ghost predicate Tree(a: Arena, s: Shape, e: int)
    requires Sized(a, s)
  {
    forall x {:trigger NodeOk(a, s, x, e)} :: x in s.nodes ==> NodeOk(a, s, x, e)
  }

  /** The root list is a consistent ring of live, distinct nodes. */
  ghost predicate RootRing(a: Arena, s: Shape)
    requires Sized(a, s)
  {
    && Distinct(s.roots)
    && (forall r :: r in s.roots ==> r in s.nodes)
    && (s.roots != [] ==> Ring(a.left, a.right, s.roots))
  }

  /** `min` is NIL exactly when there are no roots, and otherwise the root of smallest key. */
  ghost predicate MinOk(a: Arena, s: Shape, min: int)
    requires Sized(a, s) && RootRing(a, s)
  {
    && (min == NIL <==> s.roots == [])
    && (min != NIL ==> min in s.roots && forall r :: r in s.roots ==> a.key[min] <= a.key[r])
  }

  /** The heap invariant: a heap-ordered forest whose roots form a ring headed
      by `min`, with `n` counting the live nodes. */
  ghost predicate Inv(a: Arena, s: Shape, min: int, n: int)
  {
    Sized(a, s) && Tree(a, s, NIL) && RootRing(a, s) && MinOk(a, s, min) && n == |s.nodes|
  }

  /** The abstract contents: each live entry with its key. */
  ghost function Entries(a: Arena, s: Shape): map<int, int>
    requires Sized(a, s)
  {
    map x | x in s.nodes :: a.key[x]
  }

  /** `x` is a node made by the node constructor and not yet in the heap:
      a singleton ring with no parent and no children. */
  ghost predicate Detached(a: Arena, s: Shape, x: int)
    requires Sized(a, s)
  {
    && 0 <= x < |a.key| && x !in s.nodes
    && a.left[x] == x && a.right[x] == x
    && a.parent[x] == NIL && a.child[x] == NIL && a.degree[x] == 0 && s.kids[x] == [] && s.rank[x] == 0
  }

  /** Following parent links from a live node ends at a root whose key is no larger. */
  ghost function RootOf(a: Arena, s: Shape, x: int): (r: int)
    requires Sized(a, s) && Tree(a, s, NIL) && x in s.nodes
    ensures r in s.roots && r in s.nodes && a.key[r] <= a.key[x]
    decreases s.maxRank - s.rank[x]
  {
    assert NodeOk(a, s, x, NIL);
    if a.parent[x] == NIL then x
    else
      assert s.rank[a.parent[x]] <= s.maxRank by {
        assert NodeOk(a, s, a.parent[x], NIL);
      }
      RootOf(a, s, a.parent[x])
  }

  /** A forest with a live node has a root, even with order waived at `e`. */
  lemma {:induction false} HasRoot(a: Arena, s: Shape, e: int, x: int)
    requires Sized(a, s) && Tree(a, s, e) && x in s.nodes
    ensures s.roots != []
    decreases s.maxRank - s.rank[x]
  {
    assert NodeOk(a, s, x, e);
    if a.parent[x] != NIL {
      assert NodeOk(a, s, a.parent[x], e);
      HasRoot(a, s, e, a.parent[x]);
    } else {
      assert x in s.roots;
    }
  }

  /** Waiving order at one node asks less of the forest. */
  lemma TreeWaive(a: Arena, s: Shape, e: int)
    requires Sized(a, s) && Tree(a, s, NIL)
    ensures Tree(a, s, e)
  {
    forall x | x in s.nodes ensures NodeOk(a, s, x, e) {
      assert NodeOk(a, s, x, NIL);
    }
  }

  /** `min` holds the smallest key of the whole heap, not just of the roots. */
  lemma MinIsSmallest(a: Arena, s: Shape, min: int, n: int, x: int)
    requires Inv(a, s, min, n) && x in s.nodes
    ensures min != NIL && a.key[min] <= a.key[x]
  {
    var r := RootOf(a, s, x);
  }

  /** A node has fewer children than the heap has nodes. */
  lemma DegreeBound(a: Arena, s: Shape, x: int, e: int)
    requires Sized(a, s) && Tree(a, s, e) && x in s.nodes
    ensures 0 <= a.degree[x] < |s.nodes|
  {
    assert NodeOk(a, s, x, e);
    assert x !in s.kids[x];
    DistinctBound(s.kids[x], s.nodes - {x});
  }

  /** The forest survives any edit that keeps every non-root's links, every
      child ring, every parent link and every key, and moves no live node on
      or off the root ring. */
  lemma TreeFrame(a: Arena, s: Shape, a': Arena, s': Shape, e: int)
    requires Sized(a, s) && Tree(a, s, e) && Sized(a', s')
    requires a'.key == a.key && a'.degree == a.degree && a'.parent == a.parent && a'.child == a.child
    requires s'.nodes == s.nodes && s'.kids == s.kids && s'.rank == s.rank && s'.maxRank == s.maxRank
    requires forall x :: x in s.nodes ==> (x in s'.roots <==> x in s.roots)
    requires forall x :: x in s.nodes && a.parent[x] != NIL ==> a'.left[x] == a.left[x] && a'.right[x] == a.right[x]
    ensures Tree(a', s', e)
  {
    forall x | x in s.nodes ensures NodeOk(a', s', x, e) {
      assert NodeOk(a, s, x, e);
      if s.kids[x] != [] {
        forall i | 0 <= i < |s.kids[x]| ensures a.parent[s.kids[x][i]] != NIL {
          assert s.kids[x][i] in s.kids[x];
        }
        RingFrame(a.left, a.right, a'.left, a'.right, s.kids[x]);
      }
    }
  }

  /** The arena with one more node, made by the node constructor with key `k`. */
  function NewNode(a: Arena, k: int): (a': Arena)
    ensures |a'.key| == |a.key| + 1 && a'.key[|a.key|] == k
  {
    var x := |a.key|;
    Arena(a.key + [k], a.degree + [0], a.parent + [NIL], a.child + [NIL],
          a.left + [x], a.right + [x], a.mark + [false])
  }

  /** Creating a node leaves the heap as it was, with one detached node more. */
  lemma NewNodeKeepsInv(a: Arena, s: Shape, min: int, n: int, k: int)
    requires Inv(a, s, min, n)
    ensures var a', s' := NewNode(a, k), s.(kids := s.kids + [[]], rank := s.rank + [0]);
      && Inv(a', s', min, n) && Detached(a', s', |a.key|) && Entries(a', s') == Entries(a, s)
  {
    var a', s' := NewNode(a, k), s.(kids := s.kids + [[]], rank := s.rank + [0]);
    NewNodeKeepsTree(a, s, k);
    if s.roots != [] {
      RingFrame(a.left, a.right, a'.left, a'.right, s.roots);
    }
    assert RootRing(a', s');
    assert MinOk(a', s', min);
    assert Detached(a', s', |a.key|);
    assert Entries(a', s') == Entries(a, s);
  }

  lemma NewNodeKeepsTree(a: Arena, s: Shape, k: int)
    requires Sized(a, s) && Tree(a, s, NIL)
    ensures var a', s' := NewNode(a, k), s.(kids := s.kids + [[]], rank := s.rank + [0]);
      Sized(a', s') && Tree(a', s', NIL)
  {
    var a', s' := NewNode(a, k), s.(kids := s.kids + [[]], rank := s.rank + [0]);
    forall x | x in s.nodes ensures NodeOk(a', s', x, NIL) {
      assert NodeOk(a, s, x, NIL);
      if s.kids[x] != [] {
        RingFrame(a.left, a.right, a'.left, a'.right, s.kids[x]);
      }
    }
  }

  /** A parentless, childless node put on the root ring joins the forest. */
  lemma TreeAddRoot(a: Arena, s: Shape, x: int, e: int)
    requires Sized(a, s) && Tree(a, s, e) && 0 <= x < |a.key| && x !in s.nodes
    requires a.parent[x] == NIL && a.child[x] == NIL && a.degree[x] == 0 && s.kids[x] == []
    requires x in s.roots && s.rank[x] <= s.maxRank
    ensures Sized(a, s.(nodes := s.nodes + {x})) && Tree(a, s.(nodes := s.nodes + {x}), e)
  {
    var s' := s.(nodes := s.nodes + {x});
    forall y | y in s'.nodes ensures NodeOk(a, s', y, e) {
      if y != x {
        assert NodeOk(a, s, y, e);
      }
    }
  }

  /** The arena with `x` spliced into `m`'s ring immediately to its right. */
  function SpliceRight(a: Arena, m: int, x: int): (a': Arena)
    requires 0 <= m < |a.right| && 0 <= x < |a.left| && 0 <= a.right[m] < |a.left| && x < |a.right|
    ensures |a'.left| == |a.left| && |a'.right| == |a.right|
  {
    a.(left := a.left[x := m][a.right[m] := x], right := a.right[x := a.right[m]][m := x])
  }

  /** Splicing `x` in right of `min` (or making it the one root of an empty
      ring) gives a ring of the old roots and `x`, and moves the links of no
      node off that ring. */
  lemma AddRootRing(a: Arena, s: Shape, min: int, x: int)
    requires Sized(a, s) && Distinct(s.roots) && (s.roots != [] ==> Ring(a.left, a.right, s.roots))
    requires min == NIL <==> s.roots == []
    requires min != NIL ==> min in s.roots
    requires 0 <= x < |a.key| && x !in s.roots
    requires min == NIL ==> a.left[x] == x && a.right[x] == x
    ensures min != NIL ==> 0 <= min < |a.key| && 0 <= a.right[min] < |a.key|
    ensures var a', roots' :=
        if min == NIL then a else SpliceRight(a, min, x),
        if min == NIL then [x] else InsertAfter(s.roots, min, x);
      && Ring(a'.left, a'.right, roots')
      && (forall y :: y !in s.roots && y != x && 0 <= y < |a.left| ==> a'.left[y] == a.left[y] && a'.right[y] == a.right[y])
  {
    if min == NIL {
      RingSingleton(a.left, a.right, x);
    } else {
      RingSplice(a.left, a.right, s.roots, min, x);
      RingNeighbours(a.left, a.right, s.roots, min);
      var a' := SpliceRight(a, min, x);
      forall y | y !in s.roots && y != x && 0 <= y < |a.left|
        ensures a'.left[y] == a.left[y] && a'.right[y] == a.right[y]
      {
        assert y != min && y != a.right[min];
      }
    }
  }

  /** Putting a detached node on the root ring keeps the heap invariant,
      whichever way the ring was spliced, provided no non-root's links moved
      and `min` follows the strictly-smaller rule. */
  lemma AddRootKeepsInv(a: Arena, s: Shape, min: int, n: int, x: int, a': Arena, s': Shape, min': int)
    requires Inv(a, s, min, n) && Detached(a, s, x)
    requires a' == a.(left := a'.left, right := a'.right) && |a'.left| == |a.left| && |a'.right| == |a.right|
    requires forall y :: y !in s.roots && y != x && 0 <= y < |a.left| ==> a'.left[y] == a.left[y] && a'.right[y] == a.right[y]
    requires s' == s.(nodes := s.nodes + {x}, roots := s'.roots)
    requires forall y :: y in s'.roots <==> y in s.roots || y == x
    requires Ring(a'.left, a'.right, s'.roots)
    requires min' == if min == NIL || a.key[x] < a.key[min] then x else min
    ensures Inv(a', s', min', n + 1) && Entries(a', s') == Entries(a, s)[x := a.key[x]]
  {
    AddRootKeepsTree(a, s, x, a', s');
  }

  lemma AddRootKeepsTree(a: Arena, s: Shape, x: int, a': Arena, s': Shape)
    requires Sized(a, s) && Tree(a, s, NIL) && Detached(a, s, x)
    requires a' == a.(left := a'.left, right := a'.right) && |a'.left| == |a.left| && |a'.right| == |a.right|
    requires forall y :: y !in s.roots && y != x && 0 <= y < |a.left| ==> a'.left[y] == a.left[y] && a'.right[y] == a.right[y]
    requires s' == s.(nodes := s.nodes + {x}, roots := s'.roots)
    requires forall y :: y in s'.roots <==> y in s.roots || y == x
    ensures Sized(a', s') && Tree(a', s', NIL)
  {
    var s1 := s.(roots := s'.roots);
    forall y | y in s.nodes && a.parent[y] != NIL ensures a'.left[y] == a.left[y] && a'.right[y] == a.right[y] {
      assert NodeOk(a, s, y, NIL);
    }
    TreeFrame(a, s, a', s1, NIL);
    TreeAddRoot(a', s1, x, NIL);
  }

  /** fibHeapInsert keeps the heap invariant: splicing a detached node in
      next to `min`, counting it, and moving `min` to it exactly when its key
      is strictly smaller gives a heap with one more entry. */
  lemma InsertKeepsInv(a: Arena, s: Shape, min: int, n: int, x: int)
    requires Inv(a, s, min, n) && Detached(a, s, x)
    ensures min != NIL ==> min in s.roots && 0 <= min < |a.key| && 0 <= a.right[min] < |a.key|
    ensures var a', roots' :=
        if min == NIL then a else SpliceRight(a, min, x),
        if min == NIL then [x] else InsertAfter(s.roots, min, x);
      var s', min' := s.(nodes := s.nodes + {x}, roots := roots'), if min == NIL || a.key[x] < a.key[min] then x else min;
      Inv(a', s', min', n + 1) && Entries(a', s') == Entries(a, s)[x := a.key[x]]
  {
    AddRootRing(a, s, min, x);
    var a', roots' :=
        if min == NIL then a else SpliceRight(a, min, x),
        if min == NIL then [x] else InsertAfter(s.roots, min, x);
    var s', min' := s.(nodes := s.nodes + {x}, roots := roots'), if min == NIL || a.key[x] < a.key[min] then x else min;
    AddRootKeepsInv(a, s, min, n, x, a', s', min');
  }
}
