/**
 * Circular doubly-linked rings over a node arena.
 *
 * A node is an index into parallel `left`/`right` sequences; NIL (-1) plays
 * the part of the null pointer. A ring is described by the sequence of its
 * members in `right` order, starting at any member.
 */
module Rings {

  /** The null handle. */
  const NIL: int := -1

  ghost predicate Distinct(s: seq<int>) {
    forall i, j :: 0 <= i < j < |s| ==> s[i] != s[j]
  }

  /** `s` lists, in `right` order, the members of one consistent circular ring:
      `x.left.right == x` and `x.right.left == x` for every member `x`. */
  ghost predicate Ring(left: seq<int>, right: seq<int>, s: seq<int>) {
    && |s| > 0
    && Distinct(s)
    && (forall i :: 0 <= i < |s| ==> 0 <= s[i] < |left| && s[i] < |right|)
    && (forall i {:trigger right[s[i]]} :: 0 <= i < |s| - 1 ==> right[s[i]] == s[i + 1])
    && (forall i {:trigger left[s[i]]} :: 0 < i < |s| ==> left[s[i]] == s[i - 1])
    && right[s[|s| - 1]] == s[0]
    && left[s[0]] == s[|s| - 1]
  }

  /** The first member of a (possibly empty) ring description, or NIL. */
  function Head(s: seq<int>): int {
    if s == [] then NIL else s[0]
  }

  /** Position of `a` in `s`. */
  function IndexOf(s: seq<int>, a: int): (i: nat)
    requires a in s
    ensures i < |s| && s[i] == a
    ensures forall j :: 0 <= j < i ==> s[j] != a
  {
    if s[0] == a then 0 else 1 + IndexOf(s[1..], a)
  }

  /** `s` with `x` placed immediately to the right of `a`. */
  function InsertAfter(s: seq<int>, a: int, x: int): (t: seq<int>)
    requires a in s
    ensures |t| == |s| + 1
    ensures forall y :: y in t <==> y in s || y == x
  {
    var p := IndexOf(s, a);
    assert s == s[..p + 1] + s[p + 1..];
    s[..p + 1] + [x] + s[p + 1..]
  }

  /** `s` after inserting `xs[0]`, then `xs[1]`, and so on, each immediately
      to the right of `a`: the members of `xs` end up after `a` in reverse order. */
  function InsertAllAfter(s: seq<int>, a: int, xs: seq<int>): (t: seq<int>)
    requires a in s
    ensures a in t && |t| == |s| + |xs|
    ensures forall y :: y in t <==> y in s || y in xs
    decreases |xs|
  {
    if xs == [] then s else InsertAllAfter(InsertAfter(s, a, xs[0]), a, xs[1..])
  }

  /** `s` with the member `x` taken out. */
  function Without(s: seq<int>, x: int): (t: seq<int>)
    requires x in s
    ensures |t| == |s| - 1
  {
    var i := IndexOf(s, x);
    s[..i] + s[i + 1..]
  }

  lemma DistinctWithout(s: seq<int>, x: int)
    requires Distinct(s) && x in s
    ensures Distinct(Without(s, x))
    ensures forall y :: y in Without(s, x) <==> y in s && y != x
  {
    var i := IndexOf(s, x);
    var t := Without(s, x);
    forall y ensures y in t <==> y in s && y != x {
      if y in t {
        var k :| 0 <= k < |t| && t[k] == y;
        if k < i { assert s[k] == y; } else { assert s[k + 1] == y; }
      }
      if y in s && y != x {
        var k :| 0 <= k < |s| && s[k] == y;
        if k < i { assert t[k] == y; } else { assert k != i; assert t[k - 1] == y; }
      }
    }
  }

  /** `s` with `x` inserted at position `p + 1`, as a sequence defined by position. */
  lemma InsertAt(s: seq<int>, p: nat, x: int)
    requires p < |s|
    ensures var t := s[..p + 1] + [x] + s[p + 1..];
      && |t| == |s| + 1 && t[p + 1] == x
      && (forall k :: 0 <= k <= p ==> t[k] == s[k])
      && (forall k :: p + 1 < k < |t| ==> t[k] == s[k - 1])
  {
  }

  lemma InsertDistinct(s: seq<int>, p: nat, x: int)
    requires Distinct(s) && p < |s| && x !in s
    ensures Distinct(s[..p + 1] + [x] + s[p + 1..])
  {
    var t := s[..p + 1] + [x] + s[p + 1..];
    InsertAt(s, p, x);
    forall i, j | 0 <= i < j < |t| ensures t[i] != t[j] {
      var i' := if i <= p then i else i - 1;
      var j' := if j <= p then j else j - 1;
      if i == p + 1 {
        assert t[j] == s[j'];
      } else if j == p + 1 {
        assert t[i] == s[i'];
      } else {
        assert t[i] == s[i'] && t[j] == s[j'];
      }
    }
  }

  lemma InsertRightLinks(left: seq<int>, right: seq<int>, s: seq<int>, p: nat, x: int)
    requires Ring(left, right, s) && p < |s|
    requires 0 <= x < |left| && x < |right| && x !in s
    ensures var r := right[x := right[s[p]]][s[p] := x];
      var t := s[..p + 1] + [x] + s[p + 1..];
      && (forall k :: 0 <= k < |t| - 1 ==> r[t[k]] == t[k + 1])
      && r[t[|t| - 1]] == t[0]
  {
    var a := s[p];
    var r := right[x := right[a]][a := x];
    var t := s[..p + 1] + [x] + s[p + 1..];
    InsertAt(s, p, x);
    forall k | 0 <= k < |t| - 1 ensures r[t[k]] == t[k + 1] {
      if k < p {
        assert t[k] == s[k] && t[k + 1] == s[k + 1];
        assert s[k] != a;
      } else if k == p {
      } else if k == p + 1 {
        if p < |s| - 1 {
          assert t[k + 1] == s[p + 1];
        }
      } else {
        assert t[k] == s[k - 1] && t[k + 1] == s[k];
        assert s[k - 1] != a;
      }
    }
    if p < |s| - 1 {
      assert t[|t| - 1] == s[|s| - 1];
      assert s[|s| - 1] != a;
    }
  }

  lemma InsertLeftLinks(left: seq<int>, right: seq<int>, s: seq<int>, p: nat, x: int)
    requires Ring(left, right, s) && p < |s|
    requires 0 <= x < |left| && x < |right| && x !in s
    ensures var l := left[x := s[p]][right[s[p]] := x];
      var t := s[..p + 1] + [x] + s[p + 1..];
      && (forall k :: 0 < k < |t| ==> l[t[k]] == t[k - 1])
      && l[t[0]] == t[|t| - 1]
  {
    var a := s[p];
    var q := if p == |s| - 1 then 0 else p + 1;
    var b := right[a];
    assert b == s[q];
    var l := left[x := a][b := x];
    var t := s[..p + 1] + [x] + s[p + 1..];
    InsertAt(s, p, x);
    forall k | 0 < k < |t| ensures l[t[k]] == t[k - 1] {
      if k <= p {
        assert t[k] == s[k] && t[k - 1] == s[k - 1];
        assert s[k] != b;
      } else if k == p + 1 {
      } else if k == p + 2 {
        assert t[k] == s[p + 1];
      } else {
        assert t[k] == s[k - 1] && t[k - 1] == s[k - 2];
        assert s[k - 1] != b;
      }
    }
    if p < |s| - 1 {
      assert t[|t| - 1] == s[|s| - 1];
      assert s[0] != b;
    }
  }

  /** Splicing `x` in to the right of `a = s[p]`, as `x.left = a; x.right = a.right;
      a.right.left = x; a.right = x`, yields a ring with `x` after `a`. */
  lemma RingInsertAfter(left: seq<int>, right: seq<int>, s: seq<int>, p: nat, x: int)
    requires Ring(left, right, s) && p < |s|
    requires 0 <= x < |left| && x < |right| && x !in s
    ensures Ring(left[x := s[p]][right[s[p]] := x], right[x := right[s[p]]][s[p] := x],
                 s[..p + 1] + [x] + s[p + 1..])
  {
    var t := s[..p + 1] + [x] + s[p + 1..];
    InsertAt(s, p, x);
    InsertDistinct(s, p, x);
    InsertRightLinks(left, right, s, p, x);
    InsertLeftLinks(left, right, s, p, x);
    forall k | 0 <= k < |t| ensures 0 <= t[k] < |left| && t[k] < |right| {
      if k != p + 1 {
        var k' := if k <= p then k else k - 1;
        assert t[k] == s[k'];
      }
    }
  }

  /** Inserting a new member after `a` keeps the members distinct and the head in place. */
  lemma InsertAfterDistinct(s: seq<int>, a: int, x: int)
    requires Distinct(s) && a in s && x !in s
    ensures Distinct(InsertAfter(s, a, x)) && InsertAfter(s, a, x)[0] == s[0]
  {
    InsertDistinct(s, IndexOf(s, a), x);
  }

  /** The splice of `RingInsertAfter`, named by the member `a` rather than its position. */
  lemma RingSplice(left: seq<int>, right: seq<int>, s: seq<int>, a: int, x: int)
    requires Ring(left, right, s) && a in s
    requires 0 <= x < |left| && x < |right| && x !in s
    ensures Ring(left[x := a][right[a] := x], right[x := right[a]][a := x], InsertAfter(s, a, x))
  {
    RingInsertAfter(left, right, s, IndexOf(s, a), x);
  }

  /** Where the members of `s` and `k` sit in `[s[0]] + k + s[1..]`. */
  lemma InsertRingAt(s: seq<int>, k: seq<int>)
    requires |s| > 0
    ensures var t, n := [s[0]] + k + s[1..], |k|;
      && |t| == |s| + n && t[0] == s[0]
      && (forall i :: 1 <= i <= n ==> t[i] == k[i - 1])
      && (forall i :: n < i < |t| ==> t[i] == s[i - n])
  {
  }

  lemma InsertRingDistinct(s: seq<int>, k: seq<int>)
    requires |s| > 0 && Distinct(s) && Distinct(k) && forall y :: y in k ==> y !in s
    ensures Distinct([s[0]] + k + s[1..])
  {
    var t, n := [s[0]] + k + s[1..], |k|;
    InsertRingAt(s, k);
    forall i, j | 0 <= i < j < |t| ensures t[i] != t[j] {
      if i == 0 {
        if j <= n { assert t[j] in k; } else { assert t[j] == s[j - n]; }
      } else if i <= n {
        if j > n { assert t[i] in k && t[j] == s[j - n] && s[j - n] in s; }
        else { assert t[i] == k[i - 1] && t[j] == k[j - 1]; }
      } else {
        assert t[i] == s[i - n] && t[j] == s[j - n];
      }
    }
  }

  lemma InsertRingRight(left: seq<int>, right: seq<int>, s: seq<int>, k: seq<int>)
    requires Ring(left, right, s) && Ring(left, right, k) && forall y :: y in k ==> y !in s
    ensures var m, cl := s[0], k[|k| - 1];
      var r', t := right[m := k[0]][cl := right[m]], [m] + k + s[1..];
      && (forall i :: 0 <= i < |t| - 1 ==> r'[t[i]] == t[i + 1])
      && r'[t[|t| - 1]] == t[0]
  {
    var m, c, cl := s[0], k[0], k[|k| - 1];
    var r := right[m];
    var r', t := right[m := c][cl := r], [m] + k + s[1..];
    var n := |k|;
    InsertRingAt(s, k);
    assert cl in k && m in s;
    forall i | 0 <= i < |t| - 1 ensures r'[t[i]] == t[i + 1] {
      if 1 <= i < n {
        assert k[i - 1] in k && k[i - 1] != cl;
        assert right[k[i - 1]] == k[i];
      } else if i == n {
        assert t[i + 1] == s[1] && right[s[0]] == s[1];
      } else if i > n {
        assert s[i - n] in s && s[i - n] != m && s[i - n] != cl;
        assert right[s[i - n]] == s[i - n + 1];
      }
    }
    if |s| > 1 {
      assert s[|s| - 1] in s && s[|s| - 1] != m && s[|s| - 1] != cl;
    }
  }

  lemma InsertRingLeft(left: seq<int>, right: seq<int>, s: seq<int>, k: seq<int>)
    requires Ring(left, right, s) && Ring(left, right, k) && forall y :: y in k ==> y !in s
    ensures var m, c, cl := s[0], k[0], k[|k| - 1];
      var l', t := left[c := m][right[m] := cl], [m] + k + s[1..];
      && (forall i :: 0 < i < |t| ==> l'[t[i]] == t[i - 1])
      && l'[t[0]] == t[|t| - 1]
  {
    var m, c, cl := s[0], k[0], k[|k| - 1];
    var r := right[m];
    var l', t := left[c := m][r := cl], [m] + k + s[1..];
    var n := |k|;
    InsertRingAt(s, k);
    assert r == if |s| > 1 then s[1] else m;
    assert c in k && r in s;
    forall i | 0 < i < |t| ensures l'[t[i]] == t[i - 1] {
      if 1 < i <= n {
        assert k[i - 1] in k && k[i - 1] != c;
        assert left[k[i - 1]] == k[i - 2];
      } else if i > n + 1 {
        assert s[i - n] in s && s[i - n] != r && s[i - n] != c;
        assert left[s[i - n]] == s[i - n - 1];
      }
    }
    if |s| > 1 {
      assert m != r && m != c;
    }
  }

  /** Splicing a whole ring `k` in to the right of the first member `m` of a
      disjoint ring `s`, as `m.right = k[0]; k[0].left = m; last.right =
      r; r.left = last` with `r` the old right neighbour of `m` and `last`
      the last member of `k`, yields one ring: `m`, then `k`, then the rest of
      `s`. */
  lemma RingInsertRing(left: seq<int>, right: seq<int>, s: seq<int>, k: seq<int>)
    requires Ring(left, right, s) && Ring(left, right, k)
    requires forall y :: y in k ==> y !in s
    ensures var m, c, cl := s[0], k[0], k[|k| - 1];
      Ring(left[c := m][right[m] := cl], right[m := c][cl := right[m]], [m] + k + s[1..])
  {
    var t, n := [s[0]] + k + s[1..], |k|;
    InsertRingAt(s, k);
    InsertRingDistinct(s, k);
    InsertRingRight(left, right, s, k);
    InsertRingLeft(left, right, s, k);
    forall i | 0 <= i < |t| ensures 0 <= t[i] < |left| && t[i] < |right| {
      if 1 <= i <= n { assert t[i] == k[i - 1]; } else if i > n { assert t[i] == s[i - n]; }
    }
  }

  /** `s` with position `i` taken out, as a sequence defined by position. */
  lemma RemoveAt(s: seq<int>, i: nat)
    requires i < |s|
    ensures var t := s[..i] + s[i + 1..];
      && |t| == |s| - 1
      && (forall k :: 0 <= k < i ==> t[k] == s[k])
      && (forall k :: i <= k < |t| ==> t[k] == s[k + 1])
  {
  }

  lemma RemoveDistinct(s: seq<int>, i: nat)
    requires Distinct(s) && i < |s|
    ensures Distinct(s[..i] + s[i + 1..])
  {
    var t := s[..i] + s[i + 1..];
    RemoveAt(s, i);
    forall a, b | 0 <= a < b < |t| ensures t[a] != t[b] {
      var a' := if a < i then a else a + 1;
      var b' := if b < i then b else b + 1;
      assert t[a] == s[a'] && t[b] == s[b'];
    }
  }

  lemma RemoveRightLinks(left: seq<int>, right: seq<int>, s: seq<int>, i: nat)
    requires Ring(left, right, s) && 2 <= |s| && i < |s|
    ensures var r := right[left[s[i]] := right[s[i]]];
      var t := s[..i] + s[i + 1..];
      && (forall k :: 0 <= k < |t| - 1 ==> r[t[k]] == t[k + 1])
      && r[t[|t| - 1]] == t[0]
  {
    var x := s[i];
    var pv := if i == 0 then |s| - 1 else i - 1;
    var nx := if i == |s| - 1 then 0 else i + 1;
    assert left[x] == s[pv] && right[x] == s[nx];
    var r := right[left[x] := right[x]];
    var t := s[..i] + s[i + 1..];
    RemoveAt(s, i);
    forall k | 0 <= k < |t| - 1 ensures r[t[k]] == t[k + 1] {
      if k + 1 < i {
        assert t[k] == s[k] && t[k + 1] == s[k + 1];
        assert s[k] != s[pv];
      } else if k + 1 == i {
        assert t[k] == s[k] && t[k + 1] == s[k + 2];
      } else {
        assert t[k] == s[k + 1] && t[k + 1] == s[k + 2];
        assert s[k + 1] != s[pv];
      }
    }
    if i == 0 {
      assert t[0] == s[1] && t[|t| - 1] == s[|s| - 1];
    } else if i == |s| - 1 {
      assert t[0] == s[0] && t[|t| - 1] == s[|s| - 2];
    } else {
      assert t[0] == s[0] && t[|t| - 1] == s[|s| - 1];
      assert s[|s| - 1] != s[pv];
    }
  }

  lemma RemoveLeftLinks(left: seq<int>, right: seq<int>, s: seq<int>, i: nat)
    requires Ring(left, right, s) && 2 <= |s| && i < |s|
    ensures var l := left[right[s[i]] := left[s[i]]];
      var t := s[..i] + s[i + 1..];
      && (forall k :: 0 < k < |t| ==> l[t[k]] == t[k - 1])
      && l[t[0]] == t[|t| - 1]
  {
    var x := s[i];
    var pv := if i == 0 then |s| - 1 else i - 1;
    var nx := if i == |s| - 1 then 0 else i + 1;
    assert left[x] == s[pv] && right[x] == s[nx];
    var l := left[right[x] := left[x]];
    var t := s[..i] + s[i + 1..];
    RemoveAt(s, i);
    forall k | 0 < k < |t| ensures l[t[k]] == t[k - 1] {
      if k < i {
        assert t[k] == s[k] && t[k - 1] == s[k - 1];
        assert s[k] != s[nx];
      } else if k == i {
        assert t[k] == s[k + 1] && t[k - 1] == s[k - 1];
      } else {
        assert t[k] == s[k + 1] && t[k - 1] == s[k];
        assert s[k + 1] != s[nx];
      }
    }
    if i == 0 {
      assert t[0] == s[1] && t[|t| - 1] == s[|s| - 1];
    } else if i == |s| - 1 {
      assert t[0] == s[0] && t[|t| - 1] == s[|s| - 2];
    } else {
      assert t[0] == s[0] && t[|t| - 1] == s[|s| - 1];
      assert s[0] != s[nx];
    }
  }

  /** Unlinking `x = s[i]`, as `x.left.right = x.right; x.right.left = x.left`,
      leaves the other members of `s` as a ring. */
  lemma RingRemove(left: seq<int>, right: seq<int>, s: seq<int>, i: nat)
    requires Ring(left, right, s) && 2 <= |s| && i < |s|
    ensures Ring(left[right[s[i]] := left[s[i]]], right[left[s[i]] := right[s[i]]],
                 s[..i] + s[i + 1..])
  {
    var t := s[..i] + s[i + 1..];
    RemoveAt(s, i);
    RemoveDistinct(s, i);
    RemoveRightLinks(left, right, s, i);
    RemoveLeftLinks(left, right, s, i);
    forall k | 0 <= k < |t| ensures 0 <= t[k] < |left| && t[k] < |right| {
      var k' := if k < i then k else k + 1;
      assert t[k] == s[k'];
    }
  }

  /** The unlinking of `RingRemove`, named by the member `x` rather than its position. */
  lemma RingUnlink(left: seq<int>, right: seq<int>, s: seq<int>, x: int)
    requires Ring(left, right, s) && 2 <= |s| && x in s
    ensures Ring(left[right[x] := left[x]], right[left[x] := right[x]], Without(s, x))
  {
    RingRemove(left, right, s, IndexOf(s, x));
  }

  /** A ring whose members' links are untouched is still a ring. */
  lemma RingFrame(left: seq<int>, right: seq<int>, left': seq<int>, right': seq<int>, s: seq<int>)
    requires Ring(left, right, s)
    requires forall y :: y in s ==> y < |left'| && y < |right'| && left'[y] == left[y] && right'[y] == right[y]
    ensures Ring(left', right', s)
  {
    assert s[0] in s && s[|s| - 1] in s;
    forall i | 0 <= i < |s| ensures 0 <= s[i] < |left'| && s[i] < |right'| {
      assert s[i] in s;
    }
    forall i | 0 <= i < |s| - 1 ensures right'[s[i]] == s[i + 1] {
      assert s[i] in s;
    }
    forall i | 0 < i < |s| ensures left'[s[i]] == s[i - 1] {
      assert s[i] in s;
    }
  }

  /** Both neighbours of a ring member are members. */
  lemma RingNeighbours(left: seq<int>, right: seq<int>, s: seq<int>, a: int)
    requires Ring(left, right, s) && a in s
    ensures left[a] in s && right[a] in s
  {
    var i := IndexOf(s, a);
    if i > 0 { assert left[s[i]] == s[i - 1]; }
    if i < |s| - 1 { assert right[s[i]] == s[i + 1]; }
  }

  /** In a ring, the left neighbour's right link and the right neighbour's
      left link come back to the member. */
  lemma RingBack(left: seq<int>, right: seq<int>, s: seq<int>, a: int)
    requires Ring(left, right, s) && a in s
    ensures left[a] in s && right[a] in s
    ensures 0 <= left[a] < |right| && right[left[a]] == a
    ensures 0 <= right[a] < |left| && left[right[a]] == a
  {
    var i := IndexOf(s, a);
    if i > 0 { assert left[s[i]] == s[i - 1] && right[s[i - 1]] == s[i]; }
    if i < |s| - 1 { assert right[s[i]] == s[i + 1] && left[s[i + 1]] == s[i]; }
  }

  /** A single node whose links point to itself is a ring. */
  lemma RingSingleton(left: seq<int>, right: seq<int>, x: int)
    requires 0 <= x < |left| && x < |right| && left[x] == x && right[x] == x
    ensures Ring(left, right, [x])
  {
  }

  /** Inside a ring of two or more, no member is its own left neighbour. */
  lemma RingLeftNotSelf(left: seq<int>, right: seq<int>, s: seq<int>, i: nat)
    requires Ring(left, right, s) && i < |s|
    ensures left[s[i]] == s[i] <==> |s| == 1
  {
    if i > 0 {
      assert left[s[i]] == s[i - 1];
    }
  }

  /** The same ring, read starting from its member at position `p`. */
  function Rotation(s: seq<int>, p: nat): (t: seq<int>)
    requires p < |s|
    ensures |t| == |s| && t[0] == s[p]
    ensures forall k :: 0 <= k < |s| - p ==> t[k] == s[k + p]
    ensures forall k :: |s| - p <= k < |s| ==> t[k] == s[k + p - |s|]
  {
    s[p..] + s[..p]
  }

  lemma RingRotate(left: seq<int>, right: seq<int>, s: seq<int>, p: nat)
    requires Ring(left, right, s) && p < |s|
    ensures Ring(left, right, Rotation(s, p))
    ensures forall y :: y in Rotation(s, p) <==> y in s
  {
    var t := Rotation(s, p);
    var n := |s|;
    forall i, j | 0 <= i < j < n ensures t[i] != t[j] {
      var i' := if i < n - p then i + p else i + p - n;
      var j' := if j < n - p then j + p else j + p - n;
      assert t[i] == s[i'] && t[j] == s[j'] && i' != j';
    }
    forall i | 0 <= i < n - 1 ensures right[t[i]] == t[i + 1] {
      if i < n - p - 1 {
        assert right[s[i + p]] == s[i + p + 1];
      } else if i == n - p - 1 {
        assert t[i] == s[n - 1] && t[i + 1] == s[0];
      } else {
        assert right[s[i + p - n]] == s[i + p - n + 1];
      }
    }
    forall i | 0 < i < n ensures left[t[i]] == t[i - 1] {
      if i < n - p {
        assert left[s[i + p]] == s[i + p - 1];
      } else if i == n - p {
        assert t[i] == s[0] && t[i - 1] == s[n - 1];
      } else {
        assert left[s[i + p - n]] == s[i + p - n - 1];
      }
    }
    if p > 0 {
      assert t[n - 1] == s[p - 1] && right[s[p - 1]] == s[p];
      assert left[s[p]] == s[p - 1];
    }
    forall y ensures y in t <==> y in s {
      if y in s {
        var k :| 0 <= k < n && s[k] == y;
        if k >= p { assert t[k - p] == y; } else { assert t[k + n - p] == y; }
      }
    }
  }

  /** A member's links stay on its ring, and point to itself exactly when
      the ring has no other member. */
  lemma RingSelf(left: seq<int>, right: seq<int>, s: seq<int>, x: int)
    requires Ring(left, right, s) && x in s
    ensures left[x] in s && right[x] in s
    ensures left[x] == x <==> |s| == 1
    ensures right[x] == x <==> |s| == 1
  {
    RingNeighbours(left, right, s, x);
    var i := IndexOf(s, x);
    RingLeftNotSelf(left, right, s, i);
    if |s| > 1 {
      if i < |s| - 1 {
        assert right[s[i]] == s[i + 1];
      } else {
        assert right[s[i]] == s[0];
      }
    }
  }

  /** Taking `x` out of a ring of two or more leaves its first member in
      place, unless `x` was first, when `x`'s right neighbour takes over. */
  lemma RingWithoutHead(left: seq<int>, right: seq<int>, s: seq<int>, x: int)
    requires Ring(left, right, s) && 2 <= |s| && x in s
    ensures Head(Without(s, x)) == if s[0] == x then right[x] else s[0]
  {
    var i := IndexOf(s, x);
    if i == 0 {
      assert right[s[0]] == s[1];
      assert Without(s, x)[0] == s[1];
    } else {
      assert Without(s, x)[0] == s[0];
    }
  }

  /** A repetition-free sequence has as many members as the set it enumerates. */
  lemma {:induction false} DistinctCard(s: seq<int>)
    requires Distinct(s)
    ensures |set y | y in s| == |s|
  {
    if s != [] {
      assert Distinct(s[1..]);
      DistinctCard(s[1..]);
      assert (set y | y in s) == (set y | y in s[1..]) + {s[0]};
      assert s[0] !in s[1..];
    }
  }

  /** A repetition-free sequence drawn from `S` is no longer than `S` is large. */
  lemma DistinctBound(s: seq<int>, S: set<int>)
    requires Distinct(s) && forall y :: y in s ==> y in S
    ensures |s| <= |S|
  {
    DistinctCard(s);
    var A := set y | y in s;
    assert S == A + (S - A);
  }
}
