/** Breadth-first traversal of hw1-4.c: an array queue of vertices and the
    traversal over an adjacency matrix that records, 1-based, each vertex in
    the order it leaves the queue. */
module Bfs {
  import opened Rings

  const MAX := 100

  /** The queue of hw1-4.c: `queue[front..rear]` are waiting, and
      `queue[0..rear]` is everything ever enqueued. */
  class Queue {
    const items: array<int>
    var front: int
    var rear: int

    ghost predicate Valid()
      reads this
    {
      && items.Length == MAX
      && -1 <= rear < MAX
      && (front == -1 ==> rear == -1)
      && (front != -1 ==> 0 <= front <= rear + 1)
    }

    /** Every vertex ever enqueued, oldest first. */
    ghost function Enqueued(): seq<int>
      requires Valid()
      reads this, items
    {
      items[..rear + 1]
    }

    /** How many vertices have been dequeued. */
    ghost function Taken(): int
      reads this
    {
      if front == -1 then 0 else front
    }

    /** The waiting vertices, oldest first. */
    ghost function Contents(): seq<int>
      requires Valid()
      reads this, items
    {
      Enqueued()[Taken()..]
    }

    /** The empty queue: front = rear = -1. */
    constructor()
      ensures Valid() && Enqueued() == [] && Taken() == 0 && fresh(items)
    {
      items := new int[MAX];
      front := -1;
      rear := -1;
    }

    /** enqueue: a full queue (rear == MAX - 1) is left alone; otherwise the
        vertex joins the back. */
    method Enqueue(vertex: int)
      requires Valid()
      modifies this, items
      ensures Valid() && Taken() == old(Taken())
      ensures old(rear) == MAX - 1 ==> rear == old(rear) && Enqueued() == old(Enqueued())
      ensures old(rear) < MAX - 1 ==> Enqueued() == old(Enqueued()) + [vertex]
    {
      if rear == MAX - 1 {
        return;
      }
      if front == -1 {
        front := 0;
      }
      rear := rear + 1;
      items[rear] := vertex;
    }

    /** dequeue: -1 on an empty queue; otherwise the oldest waiting vertex,
        which leaves the queue. */
    method Dequeue() returns (vertex: int)
      requires Valid()
      modifies this
      ensures Valid() && Enqueued() == old(Enqueued())
      ensures old(Contents()) == [] ==> vertex == -1 && Taken() == old(Taken())
      ensures old(Contents()) != [] ==> vertex == old(Contents())[0] && Taken() == old(Taken()) + 1
    {
      if front == -1 || front > rear {
        return -1;
      }
      vertex := items[front];
      front := front + 1;
    }

    /** isEmpty. */
    predicate IsEmpty(): (b: bool)
      requires Valid()
      reads this, items
      ensures b <==> Contents() == []
    {
      front == -1 || front > rear
    }
  }

  /** The matrix as bfs reads it: row `u`, column `v` below `m`, entry 1. */
  ghost predicate Edge(g: seq<seq<int>>, m: int, u: int, v: int)
  {
    0 <= u < |g| && 0 <= v < m && v < |g[u]| && g[u][v] == 1
  }

  /** A walk from `start` along edges. */
  ghost predicate IsPath(g: seq<seq<int>>, m: int, start: int, p: seq<int>)
  {
    |p| > 0 && p[0] == start && forall k :: 0 <= k < |p| - 1 ==> Edge(g, m, p[k], p[k + 1])
  }

  ghost predicate Reachable(g: seq<seq<int>>, m: int, start: int, v: int)
  {
    exists p :: IsPath(g, m, start, p) && p[|p| - 1] == v
  }

  lemma ReachStart(g: seq<seq<int>>, m: int, start: int)
    ensures Reachable(g, m, start, start)
  {
    assert IsPath(g, m, start, [start]);
  }

  /** One more edge extends a walk. */
  lemma ReachStep(g: seq<seq<int>>, m: int, start: int, u: int, v: int)
    requires Reachable(g, m, start, u) && Edge(g, m, u, v)
    ensures Reachable(g, m, start, v)
  {
    var p :| IsPath(g, m, start, p) && p[|p| - 1] == u;
    assert IsPath(g, m, start, p + [v]);
  }

  /** A set of vertices holding `start` and closed under edges holds every
      reachable vertex. */
  lemma ClosedHoldsReachable(g: seq<seq<int>>, m: int, start: int, s: seq<int>, v: int)
    requires start in s
    requires forall k, w :: 0 <= k < |s| && Edge(g, m, s[k], w) ==> w in s
    requires Reachable(g, m, start, v)
    ensures v in s
  {
    var p :| IsPath(g, m, start, p) && p[|p| - 1] == v;
    WalkInside(g, m, start, s, p, |p| - 1);
  }

  lemma {:induction false} WalkInside(g: seq<seq<int>>, m: int, start: int, s: seq<int>, p: seq<int>, j: int)
    requires start in s
    requires forall k, w :: 0 <= k < |s| && Edge(g, m, s[k], w) ==> w in s
    requires IsPath(g, m, start, p) && 0 <= j < |p|
    ensures p[j] in s
    decreases j
  {
    if j > 0 {
      WalkInside(g, m, start, s, p, j - 1);
      var k :| 0 <= k < |s| && s[k] == p[j - 1];
      assert Edge(g, m, s[k], p[j]);
    }
  }

  /** Row `u` of the matrix. */
  ghost function Row(adj: array2<int>, u: int): (r: seq<int>)
    requires adj.Length0 == MAX && adj.Length1 == MAX && 0 <= u < MAX
    reads adj
    ensures |r| == MAX && forall v :: 0 <= v < MAX ==> r[v] == adj[u, v]
  {
    seq(MAX, v requires 0 <= v < MAX reads adj => adj[u, v])
  }

  /** The whole matrix, row by row. */
  ghost function Grid(adj: array2<int>): (g: seq<seq<int>>)
    requires adj.Length0 == MAX && adj.Length1 == MAX
    reads adj
    ensures |g| == MAX && forall u :: 0 <= u < MAX ==> g[u] == Row(adj, u)
  {
    seq(MAX, u requires 0 <= u < MAX reads adj => Row(adj, u))
  }

  /** The vertices below `hi` that `row` links to and `visited` does not
      yet hold, in ascending order: what the loop of lines 40-45 enqueues. */
  function Unvisited(row: seq<int>, visited: seq<bool>, hi: int): seq<int>
    requires 0 <= hi <= |row| && hi <= |visited|
  {
    if hi == 0 then []
    else Unvisited(row, visited, hi - 1) + if row[hi - 1] == 1 && !visited[hi - 1] then [hi - 1] else []
  }

  /** Looking at one more vertex adds it exactly when it is an unvisited
      neighbour. */
  lemma UnvisitedNext(row: seq<int>, visited: seq<bool>, i: int, e: seq<int>)
    requires 0 <= i < |row| && i < |visited|
    ensures row[i] == 1 && !visited[i] ==> e + Unvisited(row, visited, i + 1) == e + Unvisited(row, visited, i) + [i]
    ensures !(row[i] == 1 && !visited[i]) ==> e + Unvisited(row, visited, i + 1) == e + Unvisited(row, visited, i)
  {
  }

  /** Exactly the unvisited neighbours below `hi`... */
  lemma {:induction false} UnvisitedMembers(row: seq<int>, visited: seq<bool>, hi: int)
    requires 0 <= hi <= |row| && hi <= |visited|
    ensures forall v :: v in Unvisited(row, visited, hi) <==> 0 <= v < hi && row[v] == 1 && !visited[v]
  {
    if hi > 0 {
      UnvisitedMembers(row, visited, hi - 1);
    }
  }

  /** ... in strictly ascending order. */
  lemma {:induction false} UnvisitedAscending(row: seq<int>, visited: seq<bool>, hi: int)
    requires 0 <= hi <= |row| && hi <= |visited|
    ensures forall i, j :: 0 <= i < j < |Unvisited(row, visited, hi)| ==>
      Unvisited(row, visited, hi)[i] < Unvisited(row, visited, hi)[j]
  {
    if hi > 0 {
      UnvisitedAscending(row, visited, hi - 1);
      UnvisitedMembers(row, visited, hi - 1);
      var u := Unvisited(row, visited, hi - 1);
      forall i | 0 <= i < |u|
        ensures u[i] < hi - 1
      {
        assert u[i] in u;
      }
    }
  }

  /** A distinct list of vertices below MAX that misses one of them leaves
      room in the queue. */
  lemma RoomFor(s: seq<int>, v: int)
    requires Distinct(s) && 0 <= v < MAX && v !in s
    requires forall k :: 0 <= k < |s| ==> 0 <= s[k] < MAX
    ensures |s| < MAX
  {
    var all := seq(MAX, i => i);
    DistinctCard(all);
    var S := (set y | y in all) - {v};
    assert all[v] == v;
    forall y | y in s
      ensures y in S
    {
      assert all[y] == y;
    }
    DistinctBound(s, S);
  }

  /** The queue state bfs keeps: a distinct list of vertices below MAX,
      exactly those `visited` marks. */
  ghost predicate Tracked(s: seq<int>, visited: seq<bool>)
  {
    && |visited| == MAX
    && Distinct(s)
    && (forall k :: 0 <= k < |s| ==> 0 <= s[k] < MAX)
    && (forall v :: 0 <= v < MAX ==> (visited[v] <==> v in s))
  }

  /** Marking and enqueueing an unmarked vertex keeps the two in step. */
  lemma TrackedAdd(s: seq<int>, visited: seq<bool>, v: int)
    requires Tracked(s, visited) && 0 <= v < MAX && !visited[v]
    ensures Tracked(s + [v], visited[v := true])
  {
    assert v !in s;
    forall w | w in s + [v]
      ensures w == v || w in s
    {
    }
  }

  /** One turn of the loop of lines 40-45: vertex `i`, if a neighbour of
      `cur` not yet visited, is enqueued and marked. */
  method Visit(q: Queue, visited: array<bool>, adj: array2<int>, m: int, cur: int, i: int)
    requires q.Valid() && visited.Length == MAX
    requires adj.Length0 == MAX && adj.Length1 == MAX && 0 <= cur < MAX && 0 <= i < m <= MAX
    requires Tracked(q.Enqueued(), visited[..])
    modifies q, q.items, visited
    ensures q.Valid() && q.Taken() == old(q.Taken()) && Tracked(q.Enqueued(), visited[..])
    ensures adj[cur, i] == 1 && !old(visited[i]) ==>
      q.Enqueued() == old(q.Enqueued()) + [i] && visited[..] == old(visited[..])[i := true]
    ensures !(adj[cur, i] == 1 && !old(visited[i])) ==>
      q.Enqueued() == old(q.Enqueued()) && visited[..] == old(visited[..])
  {
    if adj[cur, i] == 1 && !visited[i] {
      ghost var e := q.Enqueued();
      ghost var vs := visited[..];
      assert vs[i] == visited[i];
      RoomFor(e, i);
      q.Enqueue(i);
      visited[i] := true;
      TrackedAdd(e, vs, i);
    }
  }

  /** The loop of lines 40-45: every unvisited neighbour of `cur` is
      enqueued and marked, in ascending order. */
  method Expand(q: Queue, visited: array<bool>, adj: array2<int>, m: int, cur: int, ghost row: seq<int>)
    requires q.Valid() && visited.Length == MAX
    requires adj.Length0 == MAX && adj.Length1 == MAX && 0 <= cur < MAX && 0 <= m <= MAX
    requires row == Row(adj, cur)
    requires Tracked(q.Enqueued(), visited[..])
    modifies q, q.items, visited
    ensures q.Valid() && q.Taken() == old(q.Taken())
    ensures q.Enqueued() == old(q.Enqueued()) + Unvisited(row, old(visited[..]), m)
    ensures Tracked(q.Enqueued(), visited[..])
  {
    ghost var v0 := visited[..];
    ghost var e0 := q.Enqueued();
    for i := 0 to m
      invariant q.Valid() && q.Taken() == old(q.Taken())
      invariant q.Enqueued() == e0 + Unvisited(row, v0, i)
      invariant Tracked(q.Enqueued(), visited[..])
      invariant forall v :: i <= v < MAX ==> visited[v] == v0[v]
      invariant forall v :: 0 <= v < MAX ==> row[v] == adj[cur, v]
    {
      assert visited[i] == v0[i] && adj[cur, i] == row[i];
      UnvisitedNext(row, v0, i, e0);
      Visit(q, visited, adj, m, cur, i);
    }
  }

  /** What the queue has seen so far: `start` first, then vertices below `m`
      reachable from it. */
  ghost predicate Sources(g: seq<seq<int>>, m: int, start: int, s: seq<int>)
  {
    && |s| > 0 && s[0] == start
    && forall k :: 0 <= k < |s| ==> (s[k] == start || s[k] < m) && Reachable(g, m, start, s[k])
  }

  /** The first `d` vertices of `s` have all their neighbours in `s`. */
  ghost predicate ClosedBelow(g: seq<seq<int>>, m: int, s: seq<int>, d: int)
  {
    d <= |s| && forall k, w :: 0 <= k < d && Edge(g, m, s[k], w) ==> w in s
  }

  /** The queue holding just `start`, nothing expanded yet. */
  lemma SourcesStart(g: seq<seq<int>>, m: int, start: int)
    ensures Sources(g, m, start, [start]) && ClosedBelow(g, m, [start], 0)
  {
    ReachStart(g, m, start);
  }

  /** Expanding a reachable vertex adds reachable vertices below `m`. */
  lemma SourcesGrow(g: seq<seq<int>>, m: int, start: int, s: seq<int>, visited: seq<bool>, d: int)
    requires |g| == MAX && (forall u :: 0 <= u < MAX ==> |g[u]| == MAX) && 0 <= m <= MAX
    requires Sources(g, m, start, s) && 0 <= d < |s| && 0 <= s[d] < MAX && |visited| == MAX
    ensures Sources(g, m, start, s + Unvisited(g[s[d]], visited, m))
  {
    var row := g[s[d]];
    var u := Unvisited(row, visited, m);
    UnvisitedMembers(row, visited, m);
    forall k | 0 <= k < |u|
      ensures u[k] < m && Reachable(g, m, start, u[k])
    {
      assert u[k] in u;
      assert Edge(g, m, s[d], u[k]);
      ReachStep(g, m, start, s[d], u[k]);
    }
  }

  /** ... and closes the expanded vertex. */
  lemma ClosedGrow(g: seq<seq<int>>, m: int, s: seq<int>, visited: seq<bool>, d: int)
    requires |g| == MAX && (forall u :: 0 <= u < MAX ==> |g[u]| == MAX) && 0 <= m <= MAX
    requires Tracked(s, visited) && ClosedBelow(g, m, s, d) && 0 <= d < |s|
    ensures ClosedBelow(g, m, s + Unvisited(g[s[d]], visited, m), d + 1)
  {
    var row := g[s[d]];
    var t := s + Unvisited(row, visited, m);
    UnvisitedMembers(row, visited, m);
    forall k, w | 0 <= k < d + 1 && Edge(g, m, t[k], w)
      ensures w in t
    {
      if k < d {
        assert Edge(g, m, s[k], w);
      } else if visited[w] {
        assert w in s;
      } else {
        assert w in Unvisited(row, visited, m);
      }
    }
  }

  /** The state of bfs between two turns: `s` is everything enqueued so far,
      `order` the 1-based vertices already dequeued, in queue order. */
  ghost predicate Walk(g: seq<seq<int>>, m: int, start: int, s: seq<int>, visited: seq<bool>, order: seq<int>)
  {
    && Tracked(s, visited) && Sources(g, m, start, s) && ClosedBelow(g, m, s, |order|)
    && |order| <= |s| && forall k :: 0 <= k < |order| ==> order[k] == s[k] + 1
  }

  /** One turn keeps the state: the next vertex is dequeued and recorded,
      its unvisited neighbours enqueued. */
  lemma WalkGrow(g: seq<seq<int>>, m: int, start: int, s: seq<int>, visited: seq<bool>, order: seq<int>, visited': seq<bool>)
    requires |g| == MAX && (forall u :: 0 <= u < MAX ==> |g[u]| == MAX) && 0 <= m <= MAX
    requires Walk(g, m, start, s, visited, order) && |order| < |s|
    requires Tracked(s + Unvisited(g[s[|order|]], visited, m), visited')
    ensures Walk(g, m, start, s + Unvisited(g[s[|order|]], visited, m), visited', order + [s[|order|] + 1])
  {
    var d := |order|;
    assert s[d] in s;
    SourcesGrow(g, m, start, s, visited, d);
    ClosedGrow(g, m, s, visited, d);
  }

  /** The traversal once the queue has run dry: the vertices, 1-based, in
      the order they were enqueued. */
  lemma Conclude(g: seq<seq<int>>, m: int, start: int, s: seq<int>, visited: seq<bool>, order: seq<int>)
    requires Walk(g, m, start, s, visited, order) && |order| == |s|
    ensures |order| > 0 && order[0] == start + 1
    ensures Distinct(order)
    ensures forall k :: 0 <= k < |order| ==> order[k] == start + 1 || 1 <= order[k] <= m
    ensures forall v :: Reachable(g, m, start, v) <==> v + 1 in order
  {
    forall v
      ensures Reachable(g, m, start, v) <==> v + 1 in order
    {
      if Reachable(g, m, start, v) {
        ClosedHoldsReachable(g, m, start, s, v);
        var k :| 0 <= k < |s| && s[k] == v;
        assert order[k] == v + 1;
      }
      if v + 1 in order {
        var k :| 0 <= k < |order| && order[k] == v + 1;
        assert s[k] == v;
      }
    }
  }

  /** The neighbours below `hi` that `row` links to and `s` does not hold,
      in ascending order. */
  ghost function Undiscovered(row: seq<int>, s: seq<int>, hi: int): seq<int>
    requires 0 <= hi <= |row|
  {
    if hi == 0 then []
    else Undiscovered(row, s, hi - 1) + if row[hi - 1] == 1 && hi - 1 !in s then [hi - 1] else []
  }

  /** Marks that track `s` pick the same neighbours as membership in `s`. */
  lemma {:induction false} UnvisitedUndiscovered(row: seq<int>, s: seq<int>, visited: seq<bool>, hi: int)
    requires 0 <= hi <= |row| && hi <= MAX && Tracked(s, visited)
    ensures Unvisited(row, visited, hi) == Undiscovered(row, s, hi)
  {
    if hi > 0 {
      UnvisitedUndiscovered(row, s, visited, hi - 1);
    }
  }

  /** A reference breadth-first search, independent of the queue and the
      arrays: with `s` discovered and its first `d` vertices expanded, the
      next one expands by appending, in index order, its neighbours below `m`
      that are not yet in `s`; the search stops when every discovered vertex
      is expanded. (The guards on `d` and `s[d]` never stop it earlier: no
      more than MAX distinct vertices exist, all of them below MAX.) */
  ghost function Discovery(g: seq<seq<int>>, m: int, s: seq<int>, d: nat): seq<int>
    requires |g| == MAX && (forall u :: 0 <= u < MAX ==> |g[u]| == MAX) && 0 <= m <= MAX
    decreases MAX - d
  {
    if |s| <= d || MAX <= d || !(0 <= s[d] < MAX) then s
    else Discovery(g, m, s + Undiscovered(g[s[d]], s, m), d + 1)
  }

  /** The traversal breadth-first search from `start` yields: every
      discovered vertex, 1-based, in discovery order. */
  ghost function BfsOrder(g: seq<seq<int>>, m: int, start: int): seq<int>
    requires |g| == MAX && (forall u :: 0 <= u < MAX ==> |g[u]| == MAX) && 0 <= m <= MAX
    requires 0 <= start < MAX
  {
    var s := Discovery(g, m, [start], 0);
    seq(|s|, k requires 0 <= k < |s| => s[k] + 1)
  }

  /** A turn of bfs that turns `s` into `s'` is a step of the reference
      search. */
  lemma DiscoveryStep(g: seq<seq<int>>, m: int, s: seq<int>, visited: seq<bool>, d: nat, s': seq<int>)
    requires |g| == MAX && (forall u :: 0 <= u < MAX ==> |g[u]| == MAX) && 0 <= m <= MAX
    requires Tracked(s, visited) && d < |s| <= MAX && s' == s + Unvisited(g[s[d]], visited, m)
    ensures Discovery(g, m, s', d + 1) == Discovery(g, m, s, d)
  {
    UnvisitedUndiscovered(g[s[d]], s, visited, m);
  }

  /** Once the reference search from `start` ends in `s`, a traversal
      that lists `s` 1-based is the reference order. */
  lemma Finish(g: seq<seq<int>>, m: int, start: int, s: seq<int>, order: seq<int>)
    requires |g| == MAX && (forall u :: 0 <= u < MAX ==> |g[u]| == MAX) && 0 <= m <= MAX && 0 <= start < MAX
    requires |order| == |s| && forall k :: 0 <= k < |order| ==> order[k] == s[k] + 1
    requires s == Discovery(g, m, [start], 0)
    ensures order == BfsOrder(g, m, start)
  {
  }

  /** One turn of the outer loop of bfs: take the front vertex off the queue,
      record it after `order`, and enqueue its unvisited neighbours. */
  method Round(q: Queue, visited: array<bool>, adj: array2<int>, m: int,
               ghost g: seq<seq<int>>, ghost start: int, ghost order: seq<int>) returns (cur: int)
    requires q.Valid() && visited.Length == MAX && q.Contents() != []
    requires adj.Length0 == MAX && adj.Length1 == MAX && 0 <= m <= MAX && g == Grid(adj)
    requires Walk(g, m, start, q.Enqueued(), visited[..], order) && |order| == q.Taken()
    modifies q, q.items, visited
    ensures q.Valid() && q.Taken() == old(q.Taken()) + 1
    ensures cur == old(q.Enqueued())[old(q.Taken())]
    ensures q.Enqueued() == old(q.Enqueued()) + Unvisited(g[cur], old(visited[..]), m)
    ensures Walk(g, m, start, q.Enqueued(), visited[..], order + [cur + 1])
    ensures g == Grid(adj)
  {
    ghost var e := q.Enqueued();
    ghost var vs := visited[..];
    ghost var t := q.Taken();
    assert q.Contents()[0] == e[t] && e[t] in e;
    cur := q.Dequeue();
    assert q.Enqueued() == e;
    Expand(q, visited, adj, m, cur, g[cur]);
    WalkGrow(g, m, start, e, vs, order, visited[..]);
  }

  /** A turn of bfs is a step of the reference search: the search from the
      queue after the turn, one more vertex expanded, ends where it did
      before the turn. */
  method Turn(q: Queue, visited: array<bool>, adj: array2<int>, m: int,
              ghost g: seq<seq<int>>, ghost start: int, ghost order: seq<int>, ghost target: seq<int>) returns (cur: int)
    requires q.Valid() && visited.Length == MAX && q.Contents() != []
    requires adj.Length0 == MAX && adj.Length1 == MAX && 0 <= m <= MAX && g == Grid(adj)
    requires Walk(g, m, start, q.Enqueued(), visited[..], order) && |order| == q.Taken()
    requires Discovery(g, m, q.Enqueued(), |order|) == target
    modifies q, q.items, visited
    ensures q.Valid() && q.Taken() == old(q.Taken()) + 1 && g == Grid(adj)
    ensures Walk(g, m, start, q.Enqueued(), visited[..], order + [cur + 1])
    ensures Discovery(g, m, q.Enqueued(), |order| + 1) == target
  {
    ghost var s, vs := q.Enqueued(), visited[..];
    cur := Round(q, visited, adj, m, g, start, order);
    DiscoveryStep(g, m, s, vs, |order|, q.Enqueued());
  }

  /** The start of bfs: nothing visited but `startVertex`, which is the
      only vertex enqueued. */
  method Seed(m: int, startVertex: int, ghost g: seq<seq<int>>) returns (q: Queue, visited: array<bool>)
    requires 0 <= startVertex < MAX
    ensures fresh(q) && fresh(q.items) && fresh(visited)
    ensures q.Valid() && visited.Length == MAX && q.Taken() == 0 && q.Enqueued() == [startVertex]
    ensures Walk(g, m, startVertex, q.Enqueued(), visited[..], [])
  {
    visited := new bool[MAX](_ => false);
    q := new Queue();
    q.Enqueue(startVertex);
    visited[startVertex] := true;
    assert q.Enqueued() == [startVertex];
    assert visited[..] == seq(MAX, _ => false)[startVertex := true];
    TrackedAdd([], seq(MAX, _ => false), startVertex);
    SourcesStart(g, m, startVertex);
  }

  /** The loop of bfs: turns until the queue runs dry, recording each
      dequeued vertex; the queue it leaves behind is the one the reference
      search reaches from the queue it started with. */
  method Drain(q: Queue, visited: array<bool>, adj: array2<int>, m: int,
               ghost g: seq<seq<int>>, ghost start: int) returns (traversal: seq<int>)
    requires q.Valid() && visited.Length == MAX && q.Taken() == 0
    requires adj.Length0 == MAX && adj.Length1 == MAX && 0 <= m <= MAX && g == Grid(adj)
    requires Walk(g, m, start, q.Enqueued(), visited[..], [])
    modifies q, q.items, visited
    ensures q.Valid() && |traversal| == q.Taken() == |q.Enqueued()|
    ensures Walk(g, m, start, q.Enqueued(), visited[..], traversal)
    ensures q.Enqueued() == Discovery(g, m, old(q.Enqueued()), 0) && g == Grid(adj)
  {
    ghost var bfsQueue := Discovery(g, m, q.Enqueued(), 0);
    traversal := [];
    var count := 0;
    while !q.IsEmpty()
      invariant q.Valid() && g == Grid(adj)
      invariant Walk(g, m, start, q.Enqueued(), visited[..], traversal)
      invariant count == q.Taken() == |traversal|
      invariant Discovery(g, m, q.Enqueued(), |traversal|) == bfsQueue
      decreases MAX - q.Taken()
    {
      var currentVertex := Turn(q, visited, adj, m, g, start, traversal, bfsQueue);
      traversal := traversal + [currentVertex + 1];
      count := count + 1;
    }
    assert |traversal| == |q.Enqueued()|;
    assert Discovery(g, m, q.Enqueued(), |traversal|) == q.Enqueued();
  }

  /** bfs: the vertices reachable from `startVertex`, 1-based, in the order
      they leave the queue, which the C code prints. */
  method Bfs(m: int, adj: array2<int>, startVertex: int) returns (order: seq<int>)
    requires 0 <= m <= MAX && 0 <= startVertex < MAX
    requires adj.Length0 == MAX && adj.Length1 == MAX
    ensures |order| > 0 && order[0] == startVertex + 1
    ensures Distinct(order)
    ensures forall k :: 0 <= k < |order| ==> order[k] == startVertex + 1 || 1 <= order[k] <= m
    ensures forall v :: Reachable(Grid(adj), m, startVertex, v) <==> v + 1 in order
    ensures order == BfsOrder(Grid(adj), m, startVertex)
  {
    ghost var g := Grid(adj);
    var q, visited := Seed(m, startVertex, g);
    var traversal := Drain(q, visited, adj, m, g, startVertex);
    order := traversal;
    Conclude(g, m, startVertex, q.Enqueued(), visited[..], order);
    Finish(g, m, startVertex, q.Enqueued(), order);
  }
}
