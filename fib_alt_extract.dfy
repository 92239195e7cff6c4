/**
 * extractMin of HW2/hw2-2.c: the root `min` leaves the heap, its whole child
 * ring takes its place on the root list, and the roots are consolidated.
 *
 * As written (lines 162-173), the child ring is spliced in between `min`'s two
 * neighbours, which already takes `min` off the ring, and then `min` is
 * unlinked a second time through its own, now stale, links: its old
 * neighbours are joined again around the children, which drop out of the root
 * list. `ExtractLinksAsWritten` is that code and `StaleUnlinkLosesChildren` a
 * heap on which it loses a child. `ExtractMin` splices the child ring in
 * right of `min` instead, so that the unlink of lines 169-174 takes out `min`
 * and nothing else.
 */
module FibAltExtract {
  import opened Rings
  import opened FibNodes
  import opened FibTable
  import opened FibHeap
  import opened FibAltTable

  /** Lines 162-167 and 172-173 of extractMin as written, on the links of a
      root `z` that has a child. */
  function ExtractLinksAsWritten(a: Arena, z: int): Arena
    requires Columns(a) && 0 <= z < |a.key| && 0 <= a.child[z] < |a.key|
    requires forall y :: 0 <= y < |a.key| ==> 0 <= a.left[y] < |a.key| && 0 <= a.right[y] < |a.key|
  {
    var c := a.child[z];
    var minLeft, childLeft := a.left[z], a.left[c];
    var r1 := a.right[minLeft := c];
    var l1 := a.left[c := minLeft];
    var r2 := r1[childLeft := r1[z]];
    var l2 := l1[r2[z] := childLeft];
    var r3 := r2[l2[z] := r2[z]];
    var l3 := l2[r3[z] := l2[z]];
    a.(left := l3, right := r3)
  }

  /** Root 0 (key 1) with one child 1 (key 3), and a second root 2 (key 2). */
  function Sample(): Arena
  {
    Arena([1, 3, 2], [1, 0, 0], [NIL, 0, NIL], [1, NIL, NIL], [2, 1, 0], [2, 1, 0], [false, false, false])
  }

  function SampleShape(): Shape
  {
    Shape({0, 1, 2}, [0, 2], [[1], [], []], [1, 0, 0], 1)
  }

  /** The sample is a valid heap of three nodes with minimum 0. */
  lemma SampleIsHeap()
    ensures Inv(Sample(), SampleShape(), 0, 3)
  {
    var a, s := Sample(), SampleShape();
    assert Sized(a, s);
    assert RootRing(a, s) by {
      assert Ring(a.left, a.right, [0, 2]);
    }
    SampleNodes();
  }

  /** Each node of the sample is in order: 1 hangs below 0, whose ring of
      children it forms alone, and 0 and 2 are roots without or with that
      one child. */
  lemma SampleNodes()
    ensures Sized(Sample(), SampleShape())
    ensures Tree(Sample(), SampleShape(), NIL)
  {
    var a, s := Sample(), SampleShape();
    assert Sized(a, s);
    assert KidsOk(a, s, 0) by {
      assert Ring(a.left, a.right, [1]);
    }
    assert NodeOk(a, s, 0, NIL);
    assert NodeOk(a, s, 1, NIL) by {
      assert Placed(a, s, 1, NIL);
      assert KidsOk(a, s, 1);
    }
    assert NodeOk(a, s, 2, NIL) by {
      assert KidsOk(a, s, 2);
    }
  }

  /** On that heap the links as written leave the new `min` (0's old right
      neighbour, 2) alone on its ring: the child 1 is on no ring the heap can
      reach. The corrected splice followed by the same unlink gives the ring
      1, 2. */
  lemma StaleUnlinkLosesChildren()
    ensures Inv(Sample(), SampleShape(), 0, 3)
    ensures var a' := ExtractLinksAsWritten(Sample(), 0);
      a'.right[0] == 2 && a'.right[2] == 2 && a'.left[2] == 2
    ensures var a, c, r := Sample(), 1, 2;
      var l1, r1 := a.left[c := 0][r := c], a.right[0 := c][c := r];
      Ring(l1[r1[0] := l1[0]], r1[l1[0] := r1[0]], [1, 2])
  {
    SampleIsHeap();
    var a := Sample();
    var a' := ExtractLinksAsWritten(a, 0);
    assert a'.right == [2, 2, 2] && a'.left == [2, 2, 2];
    var l1, r1 := a.left[1 := 0][2 := 1], a.right[0 := 1][1 := 2];
    assert l1[r1[0] := l1[0]] == [2, 2, 1] && r1[l1[0] := r1[0]] == [1, 2, 1];
    assert Ring([2, 2, 1], [1, 2, 1], [1, 2]);
  }

  /** Exactly the members of `K` have lost their parent from `a0` to `a`. */
  ghost predicate Orphaned(a0: Arena, a: Arena, K: seq<int>)
    requires |a.parent| == |a0.parent|
  {
    forall y :: 0 <= y < |a.parent| ==> a.parent[y] == if y in K then NIL else a0.parent[y]
  }

  /** Every node on neither `r` nor `K` has the links it had in `a0`. */
  ghost predicate KeptOff(a0: Arena, a: Arena, r: seq<int>, K: seq<int>)
    requires |a.left| == |a0.left| == |a.right| == |a0.right|
  {
    forall y :: 0 <= y < |a.left| && y !in r && y !in K ==> a.left[y] == a0.left[y] && a.right[y] == a0.right[y]
  }

  /** Lines 156-161 of extractMin: every child of `z` in turn loses its
      parent, walking the child ring `K` from `z.child` back round to it. */
  method ClearParents(a: Arena, z: int, ghost K: seq<int>) returns (a': Arena)
    requires Columns(a) && 0 <= z < |a.key| && Ring(a.left, a.right, K) && a.child[z] == K[0]
    ensures a' == a.(parent := a'.parent) && |a'.parent| == |a.parent|
    ensures Orphaned(a, a', K)
  {
    a' := a;
    var child := a'.child[z];
    var start := child;
    ghost var i := 0;
    var more := true;
    while more
      invariant 0 <= i <= |K| && (more <==> i < |K|)
      invariant i < |K| ==> child == K[i]
      invariant a' == a.(parent := a'.parent) && |a'.parent| == |a.parent|
      invariant forall y :: 0 <= y < |a'.parent| ==> a'.parent[y] == if y in K[..i] then NIL else a.parent[y]
      decreases |K| - i
    {
      assert K[..i + 1] == K[..i] + [K[i]];
      a' := a'.(parent := a'.parent[child := NIL]);
      child := a'.right[child];
      i := i + 1;
      more := child != start;
    }
    assert K[..|K|] == K;
  }

  /** Lines 162-167 of extractMin, corrected: the child ring `K` of `z` goes in
      right of `z`, between `z` and its right neighbour as read before any
      link changes. `t` is the root ring read from `z`. */
  method SpliceChildren(a: Arena, z: int, ghost t: seq<int>, ghost K: seq<int>) returns (a': Arena)
    requires Columns(a) && Ring(a.left, a.right, t) && t[0] == z
    requires Ring(a.left, a.right, K) && a.child[z] == K[0] && forall y :: y in K ==> y !in t
    ensures a' == a.(left := a'.left, right := a'.right)
    ensures Ring(a'.left, a'.right, [z] + K + t[1..])
    ensures |a'.left| == |a.left| && |a'.right| == |a.right|
    ensures forall y :: 0 <= y < |a'.left| && y !in t && y !in K ==>
      a'.left[y] == a.left[y] && a'.right[y] == a.right[y]
  {
    RingInsertRing(a.left, a.right, t, K);
    RingBack(a.left, a.right, t, z);
    a' := a;
    var c := a'.child[z];
    var minRight := a'.right[z];
    var childLeft := a'.left[c];
    a' := a'.(right := a'.right[z := c]);
    a' := a'.(left := a'.left[c := z]);
    a' := a'.(right := a'.right[childLeft := minRight]);
    a' := a'.(left := a'.left[minRight := childLeft]);
  }

  /** Lines 172-173 of extractMin: `z` leaves a ring of two or more through
      its own links. */
  method Unlink(a: Arena, z: int, ghost t: seq<int>) returns (a': Arena)
    requires Columns(a) && Ring(a.left, a.right, t) && t[0] == z && |t| >= 2
    ensures a' == a.(left := a'.left, right := a'.right)
    ensures |a'.left| == |a.left| && |a'.right| == |a.right|
    ensures Ring(a'.left, a'.right, t[1..]) && a'.right[z] == t[1]
    ensures forall y :: 0 <= y < |a'.left| && y !in t ==>
      a'.left[y] == a.left[y] && a'.right[y] == a.right[y]
  {
    RingUnlink(a.left, a.right, t, z);
    RingSelf(a.left, a.right, t, z);
    assert Without(t, z) == t[1..];
    assert a.right[z] == t[1];
    a' := a;
    a' := a'.(right := a'.right[a'.left[z] := a'.right[z]]);
    a' := a'.(left := a'.left[a'.right[z] := a'.left[z]]);
  }

  /** Lines 155-173 of extractMin, corrected, on the arena: `t` is the root
      ring read from `z` with `z`'s child ring `K` spliced in right of `z`;
      the children are parentless, and unless `t` is `z` alone, `z` is off
      the ring again, which is then the rest of `t`. Only members of `r0`
      and `K` have new links. */
  method Relink(a: Arena, z: int, ghost r0: seq<int>, ghost K: seq<int>) returns (a': Arena, ghost t: seq<int>)
    requires Columns(a) && 0 <= z < |a.key| && Ring(a.left, a.right, r0) && r0[0] == z
    requires a.child[z] == Head(K) && (K != [] ==> Ring(a.left, a.right, K))
    requires forall y :: y in K ==> y !in r0
    ensures |t| > 0 && t[1..] == K + r0[1..]
    ensures a' == a.(parent := a'.parent, left := a'.left, right := a'.right)
    ensures |a'.parent| == |a.key| && |a'.left| == |a.key| && |a'.right| == |a.key|
    ensures Orphaned(a, a', K)
    ensures KeptOff(a, a', r0, K)
    ensures |t| == 1 ==> a'.right[z] == z
    ensures |t| >= 2 ==> Ring(a'.left, a'.right, t[1..]) && a'.right[z] == t[1] && t[1] != z
  {
    var a1;
    a1, t := Adjoin(a, z, r0, K);
    DropHead(z, K, r0[1..]);
    a' := Leave(a1, z, t, a, r0, K);
  }

  /** Lines 169-173 of extractMin: unless `z` is alone on the ring `t`, it
      leaves it through its own links. Links that `a` kept from `a0` off
      `r0` and `K`, whose members are those of `t`, stay kept. */
  method Leave(a: Arena, z: int, ghost t: seq<int>, ghost a0: Arena, ghost r0: seq<int>, ghost K: seq<int>)
    returns (a': Arena)
    requires Columns(a) && Ring(a.left, a.right, t) && t[0] == z
    requires |a0.left| == |a.left| && |a0.right| == |a.left| && KeptOff(a0, a, r0, K)
    requires forall y :: y in t <==> y in r0 || y in K
    ensures a' == a.(left := a'.left, right := a'.right)
    ensures |a'.left| == |a.left| && |a'.right| == |a.right|
    ensures KeptOff(a0, a', r0, K)
    ensures |t| == 1 ==> a'.right[z] == z
    ensures |t| >= 2 ==> Ring(a'.left, a'.right, t[1..]) && a'.right[z] == t[1] && t[1] != z
  {
    RingSelf(a.left, a.right, t, z);
    a' := a;
    if a.right[z] != z {
      a' := Unlink(a, z, t);
    }
  }

  lemma DropHead(z: int, K: seq<int>, R: seq<int>)
    ensures ([z] + K + R)[1..] == K + R
  {
    assert [z] + K + R == [z] + (K + R);
  }

  /** Lines 155-167 of extractMin, corrected: when `z` has children, they
      lose their parent and their ring `K` goes in right of `z` on the root
      ring `r0`, which becomes `t`. */
  method Adjoin(a: Arena, z: int, ghost r0: seq<int>, ghost K: seq<int>) returns (a': Arena, ghost t: seq<int>)
    requires Columns(a) && 0 <= z < |a.key| && Ring(a.left, a.right, r0) && r0[0] == z
    requires a.child[z] == Head(K) && (K != [] ==> Ring(a.left, a.right, K))
    requires forall y :: y in K ==> y !in r0
    ensures t == [z] + K + r0[1..] && Ring(a'.left, a'.right, t)
    ensures forall y :: y in t <==> y in r0 || y in K
    ensures a' == a.(parent := a'.parent, left := a'.left, right := a'.right)
    ensures |a'.parent| == |a.key| && |a'.left| == |a.key| && |a'.right| == |a.key|
    ensures Orphaned(a, a', K)
    ensures KeptOff(a, a', r0, K)
  {
    a', t := a, r0;
    assert r0 == [z] + r0[1..];
    if a.child[z] != NIL {
      a' := ClearParents(a, z, K);
      a' := SpliceChildren(a', z, r0, K);
      t := [z] + K + r0[1..];
    } else {
      assert t == [z] + K + r0[1..];
    }
  }

  /** Lines 155-173 of extractMin, corrected: `z`'s children are parentless
      roots, `z` is off the root ring and out of the forest, which is
      otherwise intact; the ring is empty exactly when `z`'s right link
      points to itself, and holds that right neighbour otherwise. */
  method TakeOut(a0: Arena, ghost s0: Shape, z: int, ghost n: int) returns (a2: Arena, ghost s2: Shape)
    requires Inv(a0, s0, z, n) && z != NIL
    ensures Forest(a2, s2) && s2.nodes == s0.nodes - {z} && |s2.nodes| < n && a2.key == a0.key
    ensures 0 <= z < |a2.right| && (s2.roots == [] <==> a2.right[z] == z)
    ensures a2.right[z] != z ==> a2.right[z] in s2.roots
    ensures forall c :: c in s0.kids[z] ==> c in s2.roots && a2.parent[c] == NIL
  {
    ghost var r0 := RootsFrom(a0, s0, z, n);
    ghost var t;
    a2, t := Relink(a0, z, r0, s0.kids[z]);
    TakeOutDone(a0, s0, z, r0, a2, t);
    TakeOutNext(z, t, a2.right);
    s2 := s0.(nodes := s0.nodes - {z}, roots := t[1..]);
  }

  /** The members of a ring description after its head are the others. */
  lemma TailMembers(r: seq<int>)
    requires Distinct(r) && |r| > 0
    ensures forall y :: y in r[1..] <==> y in r && y != r[0]
  {
    forall y ensures y in r[1..] <==> y in r && y != r[0] {
      if y in r && y != r[0] {
        var i :| 0 <= i < |r| && r[i] == y;
        assert r[1..][i - 1] == y;
      }
      if y in r[1..] {
        var i :| 0 <= i < |r| - 1 && r[1..][i] == y;
        assert r[i + 1] == y;
      }
    }
  }

  /** Splicing `K` in after the head `z` of `r0` and dropping `z` leaves
      the members of both but `z`. */
  lemma SpliceMembers(z: int, K: seq<int>, r0: seq<int>)
    requires Distinct(r0) && |r0| > 0 && r0[0] == z && z !in K
    ensures forall y :: y in K + r0[1..] <==> y in K || (y in r0 && y != z)
    ensures z !in K + r0[1..]
  {
    TailMembers(r0);
  }

  /** The root ring can be read from the minimum `z`; it has the roots as
      members, and none of `z`'s children. */
  lemma RootsFrom(a0: Arena, s0: Shape, z: int, n: int) returns (r0: seq<int>)
    requires Inv(a0, s0, z, n) && z != NIL
    ensures PromotePre(a0, s0, z) && Forest(a0, s0)
    ensures Ring(a0.left, a0.right, r0) && r0[0] == z
    ensures forall y :: y in r0 <==> y in s0.roots
    ensures forall y :: y in s0.kids[z] ==> y !in r0
  {
    ExtractPre(a0, s0, z, n);
    r0 := RootWalk(a0, s0, z, n);
    forall y ensures y in r0 <==> y in s0.roots {
      assert y in r0 <==> y in multiset(r0);
    }
  }

  /** The arena `a2` that `Relink` leaves, with the roots after it, is a
      consistent forest of the nodes but `z` in which `z`'s children are
      parentless roots. */
  lemma TakeOutDone(a0: Arena, s0: Shape, z: int, r0: seq<int>, a2: Arena, t: seq<int>)
    requires PromotePre(a0, s0, z) && Forest(a0, s0) && Ring(a0.left, a0.right, r0) && r0[0] == z
    requires forall y :: y in r0 <==> y in s0.roots
    requires |t| > 0 && t[1..] == s0.kids[z] + r0[1..]
    requires a2 == a0.(parent := a2.parent, left := a2.left, right := a2.right)
    requires |a2.parent| == |a0.key| && |a2.left| == |a0.key| && |a2.right| == |a0.key|
    requires Orphaned(a0, a2, s0.kids[z])
    requires KeptOff(a0, a2, r0, s0.kids[z])
    requires |t| >= 2 ==> Ring(a2.left, a2.right, t[1..])
    ensures var s2 := s0.(nodes := s0.nodes - {z}, roots := t[1..]);
      && Forest(a2, s2) && |s2.nodes| == |s0.nodes| - 1
      && (forall c :: c in s0.kids[z] ==> c in s2.roots && a2.parent[c] == NIL)
  {
    var R := t[1..];
    assert z !in s0.kids[z];
    SpliceMembers(z, s0.kids[z], r0);
    assert Distinct(R) by {
      if R == [] {
      } else {
        assert Ring(a2.left, a2.right, R);
      }
    }
    TakeOutForest(a0, s0, z, a2, R);
  }

  /** After `Relink`, `z`'s right link points to itself exactly when no root
      is left, and otherwise to the first root left. */
  lemma TakeOutNext(z: int, t: seq<int>, right: seq<int>)
    requires |t| > 0 && 0 <= z < |right|
    requires |t| == 1 ==> right[z] == z
    requires |t| >= 2 ==> right[z] == t[1] && t[1] != z
    ensures t[1..] == [] <==> right[z] == z
    ensures right[z] != z ==> right[z] in t[1..]
  {
    if |t| >= 2 {
      assert t[1..][0] == t[1];
    }
  }

  /** extractMin of HW2/hw2-2.c with its splice corrected: on an empty heap
      nothing changes; otherwise the entry of the old `min`, which held the
      smallest key of the heap, leaves it, every other entry stays, and `n`
      drops by one. The roots are consolidated through a table of `n` slots. */
  method ExtractMin(h: Heap)
    requires h.Valid()
    modifies h
    ensures h.Valid() && h.a.key == old(h.a.key)
    ensures old(h.min) == NIL ==> h.a == old(h.a) && h.sh == old(h.sh) && h.n == old(h.n)
    ensures old(h.min) != NIL ==> h.n == old(h.n) - 1 && h.sh.nodes == old(h.sh.nodes) - {old(h.min)}
    ensures old(h.min) != NIL ==> Entries(h.a, h.sh) == old(Entries(h.a, h.sh)) - {old(h.min)}
    ensures old(h.min) != NIL ==> forall x :: x in old(h.sh.nodes) ==> h.a.key[old(h.min)] <= h.a.key[x]
  {
    var z := h.min;
    if z == NIL {
      return;
    }
    forall x | x in h.sh.nodes ensures h.a.key[z] <= h.a.key[x] {
      MinIsSmallest(h.a, h.sh, h.min, h.n, x);
    }
    ghost var e0 := Entries(h.a, h.sh);
    h.a, h.sh := TakeOut(h.a, h.sh, z, h.n);
    if h.a.right[z] == z {
      h.min := NIL;
    } else {
      h.min := h.a.right[z];
      Consolidate(h);
    }
    h.n := h.n - 1;
    assert Entries(h.a, h.sh) == e0 - {z};
  }

  /** After lines 155-173, corrected, the nodes other than `z` form a
      consistent forest with the same keys, whose root ring `R` holds the old
      roots but `z`, and `z`'s children, now parentless. */
  lemma TakeOutForest(a0: Arena, s0: Shape, z: int, a2: Arena, R: seq<int>)
    requires Sized(a0, s0) && Tree(a0, s0, NIL) && RootRing(a0, s0) && PromotePre(a0, s0, z)
    requires a2 == a0.(parent := a2.parent, left := a2.left, right := a2.right)
    requires |a2.parent| == |a0.key| && |a2.left| == |a0.key| && |a2.right| == |a0.key|
    requires Orphaned(a0, a2, s0.kids[z])
    requires KeptOff(a0, a2, s0.roots, s0.kids[z])
    requires Distinct(R) && (R != [] ==> Ring(a2.left, a2.right, R))
    requires forall r :: r in R <==> (r in s0.roots && r != z) || r in s0.kids[z]
    ensures var s2 := s0.(nodes := s0.nodes - {z}, roots := R);
      Forest(a2, s2) && |s2.nodes| == |s0.nodes| - 1
  {
    var s2 := s0.(nodes := s0.nodes - {z}, roots := R);
    assert NodeOk(a0, s0, z, NIL);
    forall x | x in s2.nodes ensures NodeOk(a2, s2, x, NIL) {
      TakeOutNode(a0, s0, z, a2, R, x);
    }
    forall r | r in R ensures r in s2.nodes {
      if r in s0.kids[z] {
        assert a0.parent[r] == z;
      }
    }
  }

  /** One node of that forest is in order. */
  lemma TakeOutNode(a0: Arena, s0: Shape, z: int, a2: Arena, R: seq<int>, x: int)
    requires Sized(a0, s0) && Tree(a0, s0, NIL) && RootRing(a0, s0) && PromotePre(a0, s0, z)
    requires a2 == a0.(parent := a2.parent, left := a2.left, right := a2.right)
    requires |a2.parent| == |a0.key| && |a2.left| == |a0.key| && |a2.right| == |a0.key|
    requires Orphaned(a0, a2, s0.kids[z])
    requires KeptOff(a0, a2, s0.roots, s0.kids[z])
    requires forall r :: r in R <==> (r in s0.roots && r != z) || r in s0.kids[z]
    requires x in s0.nodes && x != z
    ensures var s2 := s0.(nodes := s0.nodes - {z}, roots := R);
      Sized(a2, s2) && NodeOk(a2, s2, x, NIL)
  {
    var s2 := s0.(nodes := s0.nodes - {z}, roots := R);
    assert NodeOk(a0, s0, x, NIL);
    assert NodeOk(a0, s0, z, NIL);
    if s0.kids[x] != [] {
      forall c | c in s0.kids[x] ensures c !in s0.roots && c !in s0.kids[z] && c != z {
        assert NodeOk(a0, s0, c, NIL);
      }
      forall i | 0 <= i < |s0.kids[x]| ensures s0.kids[x][i] !in s0.roots && s0.kids[x][i] !in s0.kids[z] {
        assert s0.kids[x][i] in s0.kids[x];
      }
      RingFrame(a0.left, a0.right, a2.left, a2.right, s0.kids[x]);
    }
    if a0.parent[x] != NIL {
      var p := a0.parent[x];
      if x in s0.kids[z] {
        assert p == z;
      } else {
        assert p != z;
      }
    }
  }
}
