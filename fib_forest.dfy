/**
 * Forest surgery shared by both Fibonacci heaps: linking one root under
 * another, and cutting a child back onto the root ring.
 *
 * Each is described as a function from the arena (and shape) before to the
 * arena after, written link by link, and proved to keep the forest
 * invariant of `FibNodes`.
 */
module FibForest {
  import opened Rings
  import opened FibNodes

  /** When `y` may be linked under `x`: both are distinct roots of a consistent
      forest, and `c` is the member of `x`'s child ring that `y` is spliced in
      after (NIL when `x` has no children). */
  ghost predicate LinkPre(a: Arena, s: Shape, x: int, y: int, c: int)
  {
    && Sized(a, s) && Tree(a, s, NIL) && RootRing(a, s)
    && x in s.roots && y in s.roots && x != y
    && (c == NIL <==> s.kids[x] == []) && (c != NIL ==> c in s.kids[x])
  }

  /** Every handle the link touches is in range. */
  lemma LinkRange(a: Arena, s: Shape, x: int, y: int, c: int)
    requires LinkPre(a, s, x, y, c)
    ensures 0 <= x < |a.key| && 0 <= y < |a.key|
    ensures 0 <= a.left[y] < |a.key| && 0 <= a.right[y] < |a.key|
    ensures c != NIL ==> 0 <= c < |a.key| && 0 <= a.right[c] < |a.key|
    ensures a.left[y] in s.roots && a.right[y] in s.roots && a.left[y] != y
  {
    RingNeighbours(a.left, a.right, s.roots, y);
    assert IndexOf(s.roots, x) != IndexOf(s.roots, y);
    RingLeftNotSelf(a.left, a.right, s.roots, IndexOf(s.roots, y));
    if c != NIL {
      assert NodeOk(a, s, x, NIL);
      RingNeighbours(a.left, a.right, s.kids[x], c);
    }
  }

  /** `child[x]` is NIL exactly when `x` has no children, and is otherwise one of them. */
  lemma ChildAnchor(a: Arena, s: Shape, x: int)
    requires Sized(a, s) && Tree(a, s, NIL) && x in s.nodes
    ensures a.child[x] == NIL <==> s.kids[x] == []
    ensures a.child[x] != NIL ==> a.child[x] in s.kids[x]
  {
    assert NodeOk(a, s, x, NIL);
    if s.kids[x] != [] {
      assert s.kids[x][0] in s.kids[x];
    }
  }

  /** The arena after `y` leaves the root ring and becomes a child of `x`:
      unmarked, with parent `x`, spliced into `x`'s child ring right of `c` (or
      alone in it), and `x`'s degree one higher. */
  ghost function LinkArena(a: Arena, s: Shape, x: int, y: int, c: int): (a': Arena)
    requires LinkPre(a, s, x, y, c)
    ensures a'.key == a.key && |a'.left| == |a.left| && |a'.right| == |a.right|
  {
    LinkRange(a, s, x, y, c);
    var l1 := a.left[a.right[y] := a.left[y]];
    var r1 := a.right[a.left[y] := a.right[y]];
    a.(parent := a.parent[y := x], mark := a.mark[y := false],
       degree := a.degree[x := a.degree[x] + 1],
       child := if c == NIL then a.child[x := y] else a.child,
       left := if c == NIL then l1[y := y] else l1[y := c][r1[c] := y],
       right := if c == NIL then r1[y := y] else r1[y := r1[c]][c := y])
  }

  /** removeFromRootList's splice: `y`'s neighbours are joined past it,
      and `y`'s own links are left as they were. */
  function Unlinked(a: Arena, y: int): (a': Arena)
    requires 0 <= y < |a.left| && y < |a.right| && 0 <= a.left[y] < |a.right| && 0 <= a.right[y] < |a.left|
    ensures Columns(a) ==> Columns(a')
  {
    a.(left := a.left[a.right[y] := a.left[y]], right := a.right[a.left[y] := a.right[y]])
  }

  /** Lines 205-222 of fibHeapLink on an arena: `y` gets parent `x` and no
      mark, is spliced in right of `x`'s first child (or made `x`'s only
      child, in a ring of its own), and `x`'s degree grows by one. */
  function Adopted(a: Arena, y: int, x: int): (a': Arena)
    requires Columns(a) && 0 <= x < |a.key| && 0 <= y < |a.key|
    requires a.child[x] != NIL ==> 0 <= a.child[x] < |a.key| && 0 <= a.right[a.child[x]] < |a.key|
    ensures Columns(a')
  {
    var c := a.child[x];
    a.(parent := a.parent[y := x], mark := a.mark[y := false],
       degree := a.degree[x := a.degree[x] + 1],
       child := if c == NIL then a.child[x := y] else a.child,
       left := if c == NIL then a.left[y := y] else a.left[y := c][a.right[c] := y],
       right := if c == NIL then a.right[y := y] else a.right[y := a.right[c]][c := y])
  }

  /** The link done in two steps, as fibHeapLink does it: unlink `y` from the
      root ring, then adopt it under `x`. */
  lemma LinkInTwoSteps(a: Arena, s: Shape, x: int, y: int)
    requires 0 <= x < |a.child| && LinkPre(a, s, x, y, a.child[x])
    ensures Columns(a) && y in s.roots && 0 <= y < |a.key| && 0 <= x < |a.key|
    ensures 0 <= a.left[y] < |a.key| && 0 <= a.right[y] < |a.key| && a.left[y] != y
    ensures var a1 := Unlinked(a, y);
      && a1.child[x] == a.child[x] && a.child[x] != y
      && (a1.child[x] != NIL ==> 0 <= a1.child[x] < |a1.key| && 0 <= a1.right[a1.child[x]] < |a1.key|)
      && Adopted(a1, y, x) == LinkArena(a, s, x, y, a.child[x])
  {
    var c := a.child[x];
    LinkRange(a, s, x, y, c);
    if c != NIL {
      KidFacts(a, s, x, c);
    }
  }

  /** The shape after the link: `y` is off the root ring and in `x`'s child
      ring, and `x` outranks `y`. */
  ghost function LinkShape(a: Arena, s: Shape, x: int, y: int, c: int): (s': Shape)
    requires LinkPre(a, s, x, y, c)
  {
    LinkRange(a, s, x, y, c);
    var r := if s.rank[x] > s.rank[y] then s.rank[x] else s.rank[y] + 1;
    s.(roots := Without(s.roots, y),
       kids := s.kids[x := if c == NIL then [y] else InsertAfter(s.kids[x], c, y)],
       rank := s.rank[x := r],
       maxRank := if r > s.maxRank then r else s.maxRank)
  }

  /** What a link does, field by field: `y` leaves the root ring with parent
      `x` and no mark, joins `x`'s child ring, and `x`'s degree grows by one;
      no other node's parent, mark, degree or key changes. */
  lemma LinkEffects(a: Arena, s: Shape, x: int, y: int, c: int)
    requires LinkPre(a, s, x, y, c)
    ensures var a', s' := LinkArena(a, s, x, y, c), LinkShape(a, s, x, y, c);
      && a'.parent[y] == x && !a'.mark[y] && a'.degree[x] == a.degree[x] + 1
      && s'.roots == Without(s.roots, y) && y in s'.kids[x] && s'.nodes == s.nodes
      && a'.key == a.key
      && (forall w :: 0 <= w < |a.key| && w != y ==> a'.parent[w] == a.parent[w] && a'.mark[w] == a.mark[w])
      && (forall w :: 0 <= w < |a.key| && w != x ==> a'.degree[w] == a.degree[w])
  {
    LinkRange(a, s, x, y, c);
    if c != NIL {
      assert y in InsertAfter(s.kids[x], c, y);
    }
  }

  /** A node on a child ring is not a root and names the ring's owner as parent. */
  lemma KidFacts(a: Arena, s: Shape, w: int, m: int)
    requires Sized(a, s) && Tree(a, s, NIL) && RootRing(a, s) && w in s.nodes && m in s.kids[w]
    ensures m in s.nodes && a.parent[m] == w && m !in s.roots && 0 <= m < |a.key|
  {
    assert NodeOk(a, s, w, NIL);
    assert NodeOk(a, s, m, NIL);
  }

  /** A root other than `y` keeps the links the unlinking of `y` gave it. */
  lemma LinkRootKept(a: Arena, s: Shape, x: int, y: int, c: int, r: int)
    requires LinkPre(a, s, x, y, c) && r in s.roots && r != y
    ensures 0 <= a.left[y] < |a.left| && 0 <= a.right[y] < |a.right|
    ensures var a' := LinkArena(a, s, x, y, c);
      && 0 <= r < |a'.left| && r < |a'.right|
      && a'.left[r] == a.left[a.right[y] := a.left[y]][r]
      && a'.right[r] == a.right[a.left[y] := a.right[y]][r]
  {
    LinkRange(a, s, x, y, c);
    RingNeighbours(a.left, a.right, s.roots, r);
    if c != NIL {
      KidFacts(a, s, x, c);
      assert NodeOk(a, s, x, NIL);
      RingNeighbours(a.left, a.right, s.kids[x], c);
      KidFacts(a, s, x, a.right[c]);
    }
  }

  /** The root ring of the linked arena. */
  lemma LinkRoots(a: Arena, s: Shape, x: int, y: int, c: int)
    requires LinkPre(a, s, x, y, c)
    ensures var a' := LinkArena(a, s, x, y, c);
      Ring(a'.left, a'.right, Without(s.roots, y)) && Distinct(Without(s.roots, y))
      && (forall r :: r in Without(s.roots, y) <==> r in s.roots && r != y)
  {
    LinkRange(a, s, x, y, c);
    var a' := LinkArena(a, s, x, y, c);
    var l1 := a.left[a.right[y] := a.left[y]];
    var r1 := a.right[a.left[y] := a.right[y]];
    RingUnlink(a.left, a.right, s.roots, y);
    DistinctWithout(s.roots, y);
    var w := Without(s.roots, y);
    forall r | r in w ensures r < |a'.left| && r < |a'.right| && a'.left[r] == l1[r] && a'.right[r] == r1[r] {
      LinkRootKept(a, s, x, y, c, r);
    }
    RingFrame(l1, r1, a'.left, a'.right, w);
  }

  /** The child ring of `x` in the linked arena. */
  lemma LinkKids(a: Arena, s: Shape, x: int, y: int, c: int)
    requires LinkPre(a, s, x, y, c)
    ensures var a', s' := LinkArena(a, s, x, y, c), LinkShape(a, s, x, y, c);
      Ring(a'.left, a'.right, s'.kids[x]) && Distinct(s'.kids[x])
      && Head(s'.kids[x]) == a'.child[x] && |s'.kids[x]| == |s.kids[x]| + 1
      && (forall m :: m in s'.kids[x] <==> m in s.kids[x] || m == y)
  {
    LinkRange(a, s, x, y, c);
    var a', s' := LinkArena(a, s, x, y, c), LinkShape(a, s, x, y, c);
    var l1 := a.left[a.right[y] := a.left[y]];
    var r1 := a.right[a.left[y] := a.right[y]];
    assert NodeOk(a, s, x, NIL);
    if c == NIL {
      RingSingleton(a'.left, a'.right, y);
    } else {
      forall m | m in s.kids[x] ensures l1[m] == a.left[m] && r1[m] == a.right[m] {
        KidFacts(a, s, x, m);
      }
      RingFrame(a.left, a.right, l1, r1, s.kids[x]);
      assert y !in s.kids[x] by {
        if y in s.kids[x] { KidFacts(a, s, x, y); }
      }
      RingSplice(l1, r1, s.kids[x], c, y);
      InsertAfterDistinct(s.kids[x], c, y);
    }
  }

  /** Linking keeps the links of every node off the root ring and off `x`'s
      child ring, and of every node other than `y` its parent. */
  lemma LinkFrame(a: Arena, s: Shape, x: int, y: int, c: int, m: int)
    requires LinkPre(a, s, x, y, c) && m in s.nodes && m !in s.roots && m !in s.kids[x]
    ensures var a' := LinkArena(a, s, x, y, c);
      a'.left[m] == a.left[m] && a'.right[m] == a.right[m] && a'.parent[m] == a.parent[m]
  {
    LinkRange(a, s, x, y, c);
    if c != NIL {
      assert NodeOk(a, s, x, NIL);
      RingNeighbours(a.left, a.right, s.kids[x], c);
    }
  }

  /** What the linked arena's rings look like, as `LinkNode` needs it. */
  ghost predicate Linked(a: Arena, s: Shape, x: int, y: int, c: int)
    requires LinkPre(a, s, x, y, c)
  {
    var a', s' := LinkArena(a, s, x, y, c), LinkShape(a, s, x, y, c);
    && Sized(a', s') && Ring(a'.left, a'.right, s'.kids[x]) && Distinct(s'.kids[x])
    && Head(s'.kids[x]) == a'.child[x] && |s'.kids[x]| == |s.kids[x]| + 1
    && (forall m :: m in s'.kids[x] <==> m in s.kids[x] || m == y)
    && (forall r :: r in s'.roots <==> r in s.roots && r != y)
  }

  /** The child ring of each node is in order after the link. */
  lemma LinkNodeKids(a: Arena, s: Shape, x: int, y: int, c: int, w: int)
    requires LinkPre(a, s, x, y, c) && Linked(a, s, x, y, c) && w in s.nodes
    ensures KidsOk(LinkArena(a, s, x, y, c), LinkShape(a, s, x, y, c), w)
  {
    LinkRange(a, s, x, y, c);
    var a', s' := LinkArena(a, s, x, y, c), LinkShape(a, s, x, y, c);
    assert NodeOk(a, s, w, NIL);
    if w == x {
      forall m | m in s'.kids[x] ensures m in s'.nodes && a'.parent[m] == x {
        if m != y { KidFacts(a, s, x, m); }
      }
    } else if s.kids[w] != [] {
      forall m | m in s.kids[w] ensures a'.left[m] == a.left[m] && a'.right[m] == a.right[m] && a'.parent[m] == w {
        KidFacts(a, s, w, m);
        assert m !in s.kids[x] by {
          if m in s.kids[x] { KidFacts(a, s, x, m); }
        }
        LinkFrame(a, s, x, y, c, m);
      }
      RingFrame(a.left, a.right, a'.left, a'.right, s.kids[w]);
    }
  }

  /** Each node sits where its parent link says after the link. */
  lemma LinkNodePlaced(a: Arena, s: Shape, x: int, y: int, c: int, w: int)
    requires LinkPre(a, s, x, y, c) && Linked(a, s, x, y, c) && a.key[x] <= a.key[y] && w in s.nodes
    ensures Placed(LinkArena(a, s, x, y, c), LinkShape(a, s, x, y, c), w, NIL)
    ensures LinkShape(a, s, x, y, c).rank[w] <= LinkShape(a, s, x, y, c).maxRank
  {
    LinkRange(a, s, x, y, c);
    assert NodeOk(a, s, w, NIL);
    LinkNodeRank(a, s, x, y, c, w);
    if w == y {
      assert NodeOk(a, s, x, NIL);
    } else if a.parent[w] != NIL {
      var p := a.parent[w];
      assert NodeOk(a, s, p, NIL);
    }
  }

  lemma LinkNodeRank(a: Arena, s: Shape, x: int, y: int, c: int, w: int)
    requires LinkPre(a, s, x, y, c) && w in s.nodes && s.rank[w] <= s.maxRank
    ensures LinkShape(a, s, x, y, c).rank[w] <= LinkShape(a, s, x, y, c).maxRank
  {
  }

  /** Linking a root under another root of no larger key keeps the forest
      invariant and the entries, and takes `y` off the root ring. */
  lemma LinkKeepsTree(a: Arena, s: Shape, x: int, y: int, c: int)
    requires LinkPre(a, s, x, y, c) && a.key[x] <= a.key[y]
    ensures var a', s' := LinkArena(a, s, x, y, c), LinkShape(a, s, x, y, c);
      && Sized(a', s') && Tree(a', s', NIL) && RootRing(a', s')
      && Entries(a', s') == Entries(a, s) && s'.nodes == s.nodes
  {
    var a', s' := LinkArena(a, s, x, y, c), LinkShape(a, s, x, y, c);
    LinkRoots(a, s, x, y, c);
    LinkKids(a, s, x, y, c);
    assert Linked(a, s, x, y, c);
    forall w | w in s'.nodes ensures NodeOk(a', s', w, NIL) {
      LinkNodeKids(a, s, x, y, c, w);
      LinkNodePlaced(a, s, x, y, c, w);
    }
  }
}
