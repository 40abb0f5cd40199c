/** A graph of insertion-ordered neighbour lists with iterative traversals (src/ubin/ds.py). */
module Graphs {
  import opened Bytes
  import opened Counting

  /** Node to neighbours, in the order in which the edges were added. */
  type Adjacency<!H> = map<H, seq<H>>

  datatype GraphError = UnknownNode

  /** Neighbours are nodes and are listed once. */
  ghost predicate WellFormed<H(!new)>(adj: Adjacency<H>) {
    forall u :: u in adj ==> Distinct(adj[u]) && forall v :: v in adj[u] ==> v in adj
  }

  ghost predicate Symmetric<H(!new)>(adj: Adjacency<H>) {
    forall u, v :: IsEdge(adj, u, v) ==> IsEdge(adj, v, u)
  }

  function Elems<H(!new)>(s: seq<H>): (r: set<H>)
    ensures forall x :: x in r <==> x in s
  {
    set x | x in s
  }

  ghost predicate IsEdge<H>(adj: Adjacency<H>, u: H, v: H) {
    u in adj && v in adj[u]
  }

  /** One direction of an edge, appended unless it is there already. */
  ghost function WithNeighbor<H>(adj: Adjacency<H>, u: H, v: H): Adjacency<H>
    requires u in adj
  {
    if v in adj[u] then adj else adj[u := adj[u] + [v]]
  }

  lemma WithNeighborCorrect<H(!new)>(adj: Adjacency<H>, u: H, v: H)
    requires WellFormed(adj) && u in adj && v in adj
    ensures var r := WithNeighbor(adj, u, v);
            && WellFormed(r) && r.Keys == adj.Keys
            && (forall x, y :: IsEdge(r, x, y) <==> IsEdge(adj, x, y) || (x == u && y == v))
            && (forall x :: x in adj ==> adj[x] <= r[x])
  {
  }

  // Reachability

  ghost function Successors<H(!new)>(adj: Adjacency<H>, s: set<H>): set<H> {
    set y | y in adj.Keys && HasPredecessor(adj, s, y)
  }

  ghost predicate HasPredecessor<H(!new)>(adj: Adjacency<H>, s: set<H>, y: H) {
    exists x :: x in s && x in adj && y in adj[x]
  }

  /** The nodes at most k edges away from start. */
  ghost function Within<H(!new)>(adj: Adjacency<H>, start: H, k: nat): set<H> {
    if k == 0 then {start} else Within(adj, start, k - 1) + Successors(adj, Within(adj, start, k - 1))
  }

  ghost predicate Reachable<H(!new)>(adj: Adjacency<H>, start: H, x: H) {
    exists k: nat :: x in Within(adj, start, k)
  }

  /** No farther from start than y is. */
  ghost predicate NotFarther<H(!new)>(adj: Adjacency<H>, start: H, x: H, y: H) {
    forall k: nat :: y in Within(adj, start, k) ==> x in Within(adj, start, k)
  }

  ghost predicate IsPath<H(!new)>(adj: Adjacency<H>, p: seq<H>, start: H, x: H) {
    && p != [] && p[0] == start && p[|p| - 1] == x
    && forall i :: 0 <= i < |p| - 1 ==> p[i] in adj && p[i + 1] in adj[p[i]]
  }

  lemma {:induction false} WithinGrows<H(!new)>(adj: Adjacency<H>, start: H, k: nat, m: nat)
    requires k <= m
    ensures Within(adj, start, k) <= Within(adj, start, m)
  {
    if k < m {
      WithinGrows(adj, start, k, m - 1);
    }
  }

  lemma {:induction false} WithinHasPath<H(!new)>(adj: Adjacency<H>, start: H, k: nat, x: H) returns (p: seq<H>)
    requires x in Within(adj, start, k)
    ensures IsPath(adj, p, start, x) && |p| <= k + 1
  {
    if k == 0 {
      p := [start];
    } else if x in Within(adj, start, k - 1) {
      p := WithinHasPath(adj, start, k - 1, x);
    } else {
      var y :| y in Within(adj, start, k - 1) && y in adj && x in adj[y];
      p := WithinHasPath(adj, start, k - 1, y);
      p := p + [x];
    }
  }

  lemma {:induction false} PathIsWithin<H(!new)>(adj: Adjacency<H>, p: seq<H>, start: H, x: H)
    requires WellFormed(adj) && IsPath(adj, p, start, x)
    ensures x in Within(adj, start, |p| - 1)
  {
    if |p| > 1 {
      var y := p[|p| - 2];
      assert p[..|p| - 1][|p| - 2] == y;
      PathIsWithin(adj, p[..|p| - 1], start, y);
      assert p[|p| - 2 + 1] in adj[y];
      assert HasPredecessor(adj, Within(adj, start, |p| - 2), x);
    }
  }

  /** Within counts edges: k steps suffice exactly when some path has at most k edges. */
  lemma WithinIffPath<H(!new)>(adj: Adjacency<H>, start: H, k: nat, x: H)
    requires WellFormed(adj)
    ensures x in Within(adj, start, k) <==> exists p :: IsPath(adj, p, start, x) && |p| <= k + 1
  {
    if x in Within(adj, start, k) {
      var p := WithinHasPath(adj, start, k, x);
    }
    if exists p :: IsPath(adj, p, start, x) && |p| <= k + 1 {
      var p :| IsPath(adj, p, start, x) && |p| <= k + 1;
      PathIsWithin(adj, p, start, x);
      WithinGrows(adj, start, |p| - 1, k);
    }
  }

  ghost predicate ClosedSet<H(!new)>(adj: Adjacency<H>, s: set<H>) {
    forall x, y :: x in s && x in adj && y in adj[x] ==> y in s
  }

  /** A closed set that holds start holds everything reachable from it. */
  lemma {:induction false} WithinClosed<H(!new)>(adj: Adjacency<H>, start: H, s: set<H>, k: nat)
    requires ClosedSet(adj, s) && start in s
    ensures Within(adj, start, k) <= s
  {
    if k > 0 {
      WithinClosed(adj, start, s, k - 1);
    }
  }

  // Depth-first search as a recursion

  /** Seeing one more node leaves fewer unseen ones. */
  lemma FewerUnseen<H(!new)>(nodes: set<H>, seen: set<H>, more: set<H>, node: H)
    requires node in nodes && node !in seen && node in more
    ensures |nodes - (seen + more)| < |nodes - seen|
  {
    SubsetSize(nodes - (seen + more), nodes - seen - {node});
    assert nodes - seen == nodes - seen - {node} + {node};
  }

  /** The preorder of one unseen node: itself, then its neighbours in insertion order. */
  ghost function PreorderFrom<H(!new)>(adj: Adjacency<H>, node: H, seen: set<H>): (r: seq<H>)
    requires WellFormed(adj) && node in adj && node !in seen
    ensures r != [] && r[0] == node
    decreases |adj.Keys - seen|, 0
  {
    FewerUnseen(adj.Keys, seen, {node}, node);
    [node] + PreorderAll(adj, adj[node], seen + {node})
  }

  /** Visits the unseen nodes of a list one after the other. */
  ghost function PreorderAll<H(!new)>(adj: Adjacency<H>, nodes: seq<H>, seen: set<H>): seq<H>
    requires WellFormed(adj) && forall n :: n in nodes ==> n in adj
    decreases |adj.Keys - seen|, 1 + |nodes|
  {
    if nodes == [] then []
    else if nodes[0] in seen then PreorderAll(adj, nodes[1..], seen)
    else
      var first := PreorderFrom(adj, nodes[0], seen);
      FewerUnseen(adj.Keys, seen, Elems(first), nodes[0]);
      first + PreorderAll(adj, nodes[1..], seen + Elems(first))
  }

  /** A visit lists unseen nodes of the graph, each once. */
  lemma {:induction false} PreorderOnce<H(!new)>(adj: Adjacency<H>, nodes: seq<H>, seen: set<H>)
    requires WellFormed(adj) && forall n :: n in nodes ==> n in adj
    ensures var r := PreorderAll(adj, nodes, seen);
            Distinct(r) && forall x :: x in r ==> x in adj && x !in seen
    decreases |adj.Keys - seen|, |nodes|
  {
    if nodes != [] {
      if nodes[0] in seen {
        PreorderOnce(adj, nodes[1..], seen);
      } else {
        var first := PreorderFrom(adj, nodes[0], seen);
        FewerUnseen(adj.Keys, seen, {nodes[0]}, nodes[0]);
        FewerUnseen(adj.Keys, seen, Elems(first), nodes[0]);
        PreorderOnce(adj, adj[nodes[0]], seen + {nodes[0]});
        PreorderOnce(adj, nodes[1..], seen + Elems(first));
        var rest := PreorderAll(adj, nodes[1..], seen + Elems(first));
        var inner := PreorderAll(adj, adj[nodes[0]], seen + {nodes[0]});
        assert forall x :: x in inner ==> x !in seen + {nodes[0]};
        DistinctConcat([nodes[0]], inner);
        forall i, j | 0 <= i < |first| && 0 <= j < |rest| ensures first[i] != rest[j] {
          assert rest[j] in rest && first[i] in Elems(first);
        }
        DistinctConcat(first, rest);
      }
    }
  }

  /** A visit covers the listed nodes and every neighbour of what it lists. */
  lemma {:induction false} PreorderCovers<H(!new)>(adj: Adjacency<H>, nodes: seq<H>, seen: set<H>)
    requires WellFormed(adj) && forall n :: n in nodes ==> n in adj
    ensures var r := PreorderAll(adj, nodes, seen);
            && (forall x :: x in nodes ==> x in seen || x in r)
            && (forall x, y :: x in r && x in adj && y in adj[x] ==> y in seen || y in r)
    decreases |adj.Keys - seen|, |nodes|
  {
    if nodes != [] {
      if nodes[0] in seen {
        PreorderCovers(adj, nodes[1..], seen);
      } else {
        var first := PreorderFrom(adj, nodes[0], seen);
        FewerUnseen(adj.Keys, seen, {nodes[0]}, nodes[0]);
        FewerUnseen(adj.Keys, seen, Elems(first), nodes[0]);
        PreorderCovers(adj, adj[nodes[0]], seen + {nodes[0]});
        PreorderCovers(adj, nodes[1..], seen + Elems(first));
      }
      assert nodes == [nodes[0]] + nodes[1..];
    }
  }

  /** A visit stays inside any closed set that holds the listed nodes. */
  lemma {:induction false} PreorderStays<H(!new)>(adj: Adjacency<H>, nodes: seq<H>, seen: set<H>, s: set<H>)
    requires WellFormed(adj) && forall n :: n in nodes ==> n in adj
    requires ClosedSet(adj, s) && forall n :: n in nodes ==> n in s
    ensures forall x :: x in PreorderAll(adj, nodes, seen) ==> x in s
    decreases |adj.Keys - seen|, |nodes|
  {
    if nodes != [] {
      if nodes[0] in seen {
        PreorderStays(adj, nodes[1..], seen, s);
      } else {
        var first := PreorderFrom(adj, nodes[0], seen);
        FewerUnseen(adj.Keys, seen, {nodes[0]}, nodes[0]);
        FewerUnseen(adj.Keys, seen, Elems(first), nodes[0]);
        PreorderStays(adj, adj[nodes[0]], seen + {nodes[0]}, s);
        PreorderStays(adj, nodes[1..], seen + Elems(first), s);
      }
    }
  }

  /** The depth-first preorder lists exactly the reachable nodes, each once. */
  lemma PreorderIsReachability<H(!new)>(adj: Adjacency<H>, start: H)
    requires WellFormed(adj) && start in adj
    ensures var r := PreorderFrom(adj, start, {});
            Distinct(r) && forall x :: x in r <==> Reachable(adj, start, x)
  {
    var r := PreorderFrom(adj, start, {});
    assert PreorderAll(adj, [start], {}) == r by {
      assert PreorderAll(adj, [], Elems(r)) == [];
    }
    PreorderOnce(adj, [start], {});
    PreorderCovers(adj, [start], {});
    forall x | Reachable(adj, start, x) ensures x in r {
      var k: nat :| x in Within(adj, start, k);
      WithinClosed(adj, start, Elems(r), k);
    }
    var reach := set x | x in adj.Keys && Reachable(adj, start, x);
    forall x, y | x in reach && x in adj && y in adj[x] ensures y in reach {
      var k: nat :| x in Within(adj, start, k);
      assert HasPredecessor(adj, Within(adj, start, k), y);
      assert y in Within(adj, start, k + 1);
    }
    assert start in Within(adj, start, 0);
    PreorderStays(adj, [start], {}, reach);
  }

  // Depth-first search with a worklist

  /** The worklist form: neighbours go to the front, and nodes seen meanwhile are skipped. */
  ghost function Worklist<H(!new)>(adj: Adjacency<H>, todo: seq<H>, seen: set<H>): seq<H>
    requires WellFormed(adj) && forall n :: n in todo ==> n in adj
    decreases |adj.Keys - seen|, |todo|
  {
    if todo == [] then []
    else if todo[0] in seen then Worklist(adj, todo[1..], seen)
    else
      FewerUnseen(adj.Keys, seen, {todo[0]}, todo[0]);
      [todo[0]] + Worklist(adj, adj[todo[0]] + todo[1..], seen + {todo[0]})
  }

  /** Visiting the first node of a list. */
  lemma PreorderVisit<H(!new)>(adj: Adjacency<H>, h: H, tail: seq<H>, seen: set<H>)
    requires WellFormed(adj) && h in adj && h !in seen && forall n :: n in tail ==> n in adj
    ensures var first := PreorderFrom(adj, h, seen);
            PreorderAll(adj, [h] + tail, seen) == first + PreorderAll(adj, tail, seen + Elems(first))
  {
    assert ([h] + tail)[1..] == tail;
  }

  /** The step for an unseen node, from the same fact for its neighbours and for the rest. */
  lemma WorklistVisit<H(!new)>(adj: Adjacency<H>, h: H, tail: seq<H>, b: seq<H>, seen: set<H>)
    requires WellFormed(adj) && h in adj && h !in seen
    requires forall n :: n in tail ==> n in adj
    requires forall n :: n in tail + b ==> n in adj
    requires forall n :: n in b ==> n in adj
    requires var inner := PreorderAll(adj, adj[h], seen + {h});
             Worklist(adj, adj[h] + (tail + b), seen + {h})
             == inner + Worklist(adj, tail + b, seen + {h} + Elems(inner))
    requires var first := PreorderFrom(adj, h, seen);
             var rest := PreorderAll(adj, tail, seen + Elems(first));
             Worklist(adj, tail + b, seen + Elems(first)) == rest + Worklist(adj, b, seen + Elems(first) + Elems(rest))
    ensures var r := PreorderAll(adj, [h] + tail, seen);
            Worklist(adj, [h] + (tail + b), seen) == r + Worklist(adj, b, seen + Elems(r))
  {
    var inner := PreorderAll(adj, adj[h], seen + {h});
    var first := PreorderFrom(adj, h, seen);
    var rest := PreorderAll(adj, tail, seen + Elems(first));
    PreorderVisit(adj, h, tail, seen);
    WorklistStep(adj, tail + b, seen, h);
    SeenAfter(seen, [h], inner);
    assert Elems([h]) == {h};
    SeenAfter(seen, first, rest);
    Regroup([h], inner, rest, Worklist(adj, b, seen + Elems(first + rest)));
  }

  lemma WorklistOfRest<H(!new)>(adj: Adjacency<H>, a: seq<H>, b: seq<H>, seen: set<H>)
    requires WellFormed(adj) && a == [] && forall n :: n in b ==> n in adj
    ensures forall n :: n in a + b ==> n in adj
    ensures var r := PreorderAll(adj, a, seen);
            Worklist(adj, a + b, seen) == r + Worklist(adj, b, seen + Elems(r))
  {
    assert a + b == b;
    assert PreorderAll(adj, a, seen) == a;
    assert Elems(a) == {} && seen + {} == seen;
    assert seen + Elems(a) == seen;
    assert a + Worklist(adj, b, seen) == Worklist(adj, b, seen);
  }

  /** The worklist with duplicates visits in the order of the recursive search. */
  lemma {:induction false} WorklistIsPreorder<H(!new)>(adj: Adjacency<H>, a: seq<H>, b: seq<H>, seen: set<H>)
    requires WellFormed(adj) && (forall n :: n in a ==> n in adj) && (forall n :: n in b ==> n in adj)
    ensures forall n :: n in a + b ==> n in adj
    ensures var r := PreorderAll(adj, a, seen);
            Worklist(adj, a + b, seen) == r + Worklist(adj, b, seen + Elems(r))
    decreases |adj.Keys - seen|, |a|
  {
    if a == [] {
      WorklistOfRest(adj, a, b, seen);
    } else {
      var h, tail := a[0], a[1..];
      assert a + b == [h] + (tail + b) && a == [h] + tail;
      if h in seen {
        WorklistSkip(adj, tail + b, seen, h);
        WorklistIsPreorder(adj, tail, b, seen);
      } else {
        FewerUnseen(adj.Keys, seen, {h}, h);
        FewerUnseen(adj.Keys, seen, Elems(PreorderFrom(adj, h, seen)), h);
        WorklistIsPreorder(adj, tail, b, seen + Elems(PreorderFrom(adj, h, seen)));
        WorklistIsPreorder(adj, adj[h], tail + b, seen + {h});
        WorklistVisit(adj, h, tail, b, seen);
      }
    }
  }

  lemma ElemsConcat<H(!new)>(a: seq<H>, b: seq<H>)
    ensures Elems(a + b) == Elems(a) + Elems(b)
  {
  }

  lemma SeenAfter<H(!new)>(seen: set<H>, a: seq<H>, b: seq<H>)
    ensures seen + Elems(a) + Elems(b) == seen + Elems(a + b)
  {
    ElemsConcat(a, b);
  }

  lemma Regroup<H>(a: seq<H>, b: seq<H>, c: seq<H>, d: seq<H>)
    ensures a + (b + (c + d)) == (a + b + c) + d
  {
  }

  function Reversed<H(!new)>(s: seq<H>): (r: seq<H>)
    ensures |r| == |s| && forall i :: 0 <= i < |s| ==> r[i] == s[|s| - 1 - i]
  {
    seq(|s|, i requires 0 <= i < |s| => s[|s| - 1 - i])
  }

  /** Pushing a list backwards puts it, in order, on top of the stack. */
  lemma ReversedPush<H(!new)>(stack: seq<H>, list: seq<H>)
    ensures Reversed(stack + Reversed(list)) == list + Reversed(stack)
  {
  }

  lemma ReversedPop<H(!new)>(stack: seq<H>)
    requires stack != []
    ensures Reversed(stack) == [stack[|stack| - 1]] + Reversed(stack[..|stack| - 1])
  {
  }

  // Breadth-first search

  /** The neighbours not seen yet, in order and once each. */
  function NewOnes<H(==, !new)>(list: seq<H>, seen: set<H>): (r: seq<H>)
    ensures forall x :: x in r <==> x in list && x !in seen
    ensures Distinct(r)
  {
    if list == [] then []
    else if list[0] in seen then NewOnes(list[1..], seen)
    else [list[0]] + NewOnes(list[1..], seen + {list[0]})
  }

  /**
   The state of the search when the nodes at distance `level` are being taken from the front of
   the queue: `near` of them are left, and behind them are the known nodes one edge farther away.
   */
  ghost predicate Searching<H(!new)>(adj: Adjacency<H>, start: H, order: seq<H>, pending: seq<H>, seen: set<H>,
                                     level: nat, near: nat) {
    && near <= |pending| && Distinct(order + pending)
    && seen == Elems(order) + Elems(pending)
    && (forall x :: x in seen ==> x in adj)
    && Within(adj, start, level) == Elems(order) + Elems(pending[..near])
    && (forall x :: x in pending[near..] ==> x in Within(adj, start, level + 1))
    && (forall x, y :: x in order && x in adj && y in adj[x] ==> y in seen)
    && (forall x :: x in pending[..near] ==> Farthest(adj, start, x, level))
    && (forall i, j :: 0 <= i < j < |order| ==> NotFarther(adj, start, order[i], order[j]))
  }

  /** x is not less than level edges away. */
  ghost predicate Farthest<H(!new)>(adj: Adjacency<H>, start: H, x: H, level: nat) {
    forall k: nat :: k < level ==> x !in Within(adj, start, k)
  }

  /** When the near nodes are used up, the far ones are exactly the next level. */
  lemma NextLevel<H(!new)>(adj: Adjacency<H>, start: H, order: seq<H>, pending: seq<H>, seen: set<H>, level: nat)
    requires WellFormed(adj) && Searching(adj, start, order, pending, seen, level, 0)
    ensures Searching(adj, start, order, pending, seen, level + 1, |pending|)
  {
    assert pending[..0] == [] && pending[0..] == pending && pending[..|pending|] == pending;
    var reached := Within(adj, start, level);
    assert reached == Elems(order);
    forall y | y in Within(adj, start, level + 1) ensures y in seen {
    }
    forall x | x in pending ensures Farthest(adj, start, x, level + 1) {
      var i :| 0 <= i < |pending| && pending[i] == x;
      forall j | 0 <= j < |order| ensures order[j] != x {
        assert (order + pending)[|order| + i] == x && (order + pending)[j] == order[j];
      }
      forall k: nat | k < level + 1 ensures x !in Within(adj, start, k) {
        WithinGrows(adj, start, k, level);
      }
    }
  }

  /** Taking a near node keeps the order of distances. */
  lemma TakeNear<H(!new)>(adj: Adjacency<H>, start: H, order: seq<H>, pending: seq<H>, seen: set<H>, level: nat,
                          near: nat)
    requires WellFormed(adj) && near > 0
    requires Searching(adj, start, order, pending, seen, level, near)
    ensures var node := pending[0];
            var next := order + [node];
            forall i, j :: 0 <= i < j < |next| ==> NotFarther(adj, start, next[i], next[j])
  {
    var node := pending[0];
    var next := order + [node];
    assert node == pending[..near][0];
    assert Farthest(adj, start, node, level);
    forall i, j | 0 <= i < j < |next| ensures NotFarther(adj, start, next[i], next[j]) {
      if j == |order| {
        forall k: nat | node in Within(adj, start, k) ensures next[i] in Within(adj, start, k) {
          assert k >= level;
          WithinGrows(adj, start, level, k);
          assert order[i] in Elems(order);
        }
      }
    }
  }

  lemma TurnDistinct<H(!new)>(order: seq<H>, pending: seq<H>, more: seq<H>)
    requires pending != [] && Distinct(order + pending) && Distinct(more)
    requires forall x :: x in more ==> x !in order && x !in pending
    ensures Distinct(order + [pending[0]] + (pending[1..] + more))
  {
    forall i, j | 0 <= i < |order + pending| && 0 <= j < |more| ensures (order + pending)[i] != more[j] {
      assert (order + pending)[i] in order || (order + pending)[i] in pending;
      assert more[j] in more;
    }
    DistinctConcat(order + pending, more);
    assert order + [pending[0]] + (pending[1..] + more) == (order + pending) + more;
  }

  /** One turn of the outer loop. */
  lemma Turn<H(!new)>(adj: Adjacency<H>, start: H, order: seq<H>, pending: seq<H>, seen: set<H>, level: nat, near: nat)
    requires WellFormed(adj) && near > 0
    requires Searching(adj, start, order, pending, seen, level, near)
    ensures pending[0] in adj
    ensures var fresh' := NewOnes(adj[pending[0]], seen);
            Searching(adj, start, order + [pending[0]], pending[1..] + fresh', seen + Elems(fresh'), level, near - 1)
  {
    hide NewOnes, Distinct, NotFarther, Farthest;
    var node := pending[0];
    assert node == pending[..near][0] && pending[0] in pending;
    var more := NewOnes(adj[node], seen);
    var rest := pending[1..] + more;
    TakeNear(adj, start, order, pending, seen, level, near);
    TurnDistinct(order, pending, more);
    TurnParts(order, pending, more, near);
    forall x | x in more ensures x in Within(adj, start, level + 1) {
      assert HasPredecessor(adj, Within(adj, start, level), x);
    }
    assert forall x :: x in rest[near - 1..] ==> x in pending[near..] || x in more;
  }

  /** The sets that the search speaks of, after the first node of the queue has moved to the order. */
  lemma TurnParts<H(!new)>(order: seq<H>, pending: seq<H>, more: seq<H>, near: nat)
    requires 0 < near <= |pending|
    ensures var rest := pending[1..] + more;
            && Elems(order + [pending[0]]) + Elems(rest) == Elems(order) + Elems(pending) + Elems(more)
            && Elems(order + [pending[0]]) + Elems(rest[..near - 1]) == Elems(order) + Elems(pending[..near])
            && rest[..near - 1] == pending[..near][1..] && rest[near - 1..] == pending[near..] + more
  {
    var rest := pending[1..] + more;
    assert rest[..near - 1] == pending[..near][1..] && rest[near - 1..] == pending[near..] + more;
    ElemsConcat(order, [pending[0]]);
    ElemsConcat(pending[1..], more);
    ElemsConcat([pending[0]], pending[1..]);
    ElemsConcat([pending[0]], rest[..near - 1]);
    assert pending == [pending[0]] + pending[1..] && pending[..near] == [pending[0]] + rest[..near - 1];
  }

  lemma EnqueueStep<H(!new)>(list: seq<H>, i: nat, seen: set<H>, pending: seq<H>)
    requires i < |list|
    ensures var before, after := NewOnes(list[..i], seen), NewOnes(list[..i + 1], seen);
            if list[i] in seen + Elems(before) then after == before
            else pending + after == pending + before + [list[i]]
                 && seen + Elems(after) == seen + Elems(before) + {list[i]}
  {
    var before := NewOnes(list[..i], seen);
    NewOnesAppend(list[..i], seen, list[i]);
    assert list[..i] + [list[i]] == list[..i + 1];
    hide NewOnes;
    ElemsConcat(before, [list[i]]);
    assert Elems([list[i]]) == {list[i]};
  }

  /** The inner loop of the search. */
  method Enqueue<H(==, !new)>(list: seq<H>, seen: set<H>, pending: seq<H>) returns (known: set<H>, queue: seq<H>)
    ensures queue == pending + NewOnes(list, seen)
    ensures known == seen + Elems(NewOnes(list, seen))
  {
    assert NewOnes(list[..0], seen) == [];
    hide NewOnes, Elems;
    known, queue := seen, pending;
    for i := 0 to |list|
      invariant queue == pending + NewOnes(list[..i], seen)
      invariant known == seen + Elems(NewOnes(list[..i], seen))
    {
      EnqueueStep(list, i, seen, pending);
      if list[i] !in known {
        known := known + {list[i]};
        queue := queue + [list[i]];
      }
    }
    assert list[..|list|] == list;
  }

  /** What the nodes of a list discover one after the other, each in the order of its neighbours. */
  function Discovered<H(==, !new)>(adj: Adjacency<H>, order: seq<H>, seen: set<H>): seq<H>
    requires forall n :: n in order ==> n in adj
  {
    if order == [] then []
    else
      var first := NewOnes(adj[order[0]], seen);
      first + Discovered(adj, order[1..], seen + Elems(first))
  }

  lemma {:induction false} DiscoveredAppend<H(!new)>(adj: Adjacency<H>, order: seq<H>, seen: set<H>, node: H)
    requires node in adj && forall n :: n in order ==> n in adj
    ensures Discovered(adj, order + [node], seen)
            == Discovered(adj, order, seen) + NewOnes(adj[node], seen + Elems(Discovered(adj, order, seen)))
  {
    hide NewOnes;
    if order == [] {
      assert (order + [node])[1..] == [];
      NothingDiscovered(adj, seen + Elems(NewOnes(adj[node], seen)));
      NothingDiscovered(adj, seen);
      assert seen + Elems([]) == seen;
    } else {
      var first := NewOnes(adj[order[0]], seen);
      assert (order + [node])[1..] == order[1..] + [node];
      DiscoveredAppend(adj, order[1..], seen + Elems(first), node);
      SeenAfter(seen, first, Discovered(adj, order[1..], seen + Elems(first)));
    }
  }

  lemma NothingDiscovered<H(!new)>(adj: Adjacency<H>, seen: set<H>)
    ensures Discovered(adj, [], seen) == []
  {
  }

  /** The queue holds what has been discovered and not been taken yet. */
  ghost predicate QueueOf<H(!new)>(adj: Adjacency<H>, start: H, order: seq<H>, pending: seq<H>, seen: set<H>) {
    && (forall n :: n in order ==> n in adj)
    && [start] + Discovered(adj, order, {start}) == order + pending
    && seen == {start} + Elems(Discovered(adj, order, {start}))
  }

  lemma QueueStep<H(!new)>(adj: Adjacency<H>, start: H, order: seq<H>, pending: seq<H>, seen: set<H>)
    requires QueueOf(adj, start, order, pending, seen) && pending != [] && pending[0] in adj
    ensures var more := NewOnes(adj[pending[0]], seen);
            QueueOf(adj, start, order + [pending[0]], pending[1..] + more, seen + Elems(more))
  {
    hide NewOnes;
    var node := pending[0];
    var more := NewOnes(adj[node], seen);
    DiscoveredAppend(adj, order, {start}, node);
    SeenAfter({start}, Discovered(adj, order, {start}), more);
    assert order + pending + more == order + [node] + (pending[1..] + more);
    assert [start] + (Discovered(adj, order, {start}) + more) == [start] + Discovered(adj, order, {start}) + more;
  }

  lemma QueueStarts<H(!new)>(adj: Adjacency<H>, start: H)
    ensures QueueOf(adj, start, [], [start], {start})
  {
    NothingDiscovered(adj, {start});
    assert [start] + [] == [] + [start] && {start} + Elems([]) == {start};
  }

  // What a caller sees of the two orders

  /** Node r[k] is the first neighbour of r[i] that is neither seen before nor listed before it. */
  ghost predicate Follows<H(!new)>(adj: Adjacency<H>, seen: set<H>, r: seq<H>, k: nat, i: nat) {
    && i < k < |r| && r[i] in adj
    && IsFirstNew(adj[r[i]], seen + Elems(r[..k]), r[k])
  }

  /** x is the first element of the list that is not in the set. */
  ghost predicate IsFirstNew<H(!new)>(list: seq<H>, seen: set<H>, x: H) {
    x !in seen && exists p: nat :: p < |list| && list[p] == x && forall q :: 0 <= q < p ==> list[q] in seen
  }

  /** All neighbours of r[j] are seen before, or listed before r[k]. */
  ghost predicate Exhausted<H(!new)>(adj: Adjacency<H>, seen: set<H>, r: seq<H>, k: nat, j: nat)
    requires j < k <= |r|
  {
    r[j] in adj && forall n :: n in adj[r[j]] ==> n in seen + Elems(r[..k])
  }

  /** Each node is found from the earliest listed node that still has a new neighbour. */
  ghost predicate BreadthFirst<H(!new)>(adj: Adjacency<H>, r: seq<H>) {
    forall k :: 0 < k < |r| ==> FoundEarly(adj, r, k)
  }

  ghost predicate FoundEarly<H(!new)>(adj: Adjacency<H>, r: seq<H>, k: nat) {
    exists i: nat :: FromEarliest(adj, r, k, i)
  }

  ghost predicate FromEarliest<H(!new)>(adj: Adjacency<H>, r: seq<H>, k: nat, i: nat) {
    Follows(adj, {}, r, k, i) && forall j: nat :: j < i ==> Exhausted(adj, {}, r, k, j)
  }

  /** Each node is found from the latest listed node that still has a new neighbour. */
  ghost predicate DepthFirst<H(!new)>(adj: Adjacency<H>, r: seq<H>) {
    forall k :: 0 < k < |r| ==> FoundLate(adj, {}, r, k)
  }

  ghost predicate FoundLate<H(!new)>(adj: Adjacency<H>, seen: set<H>, r: seq<H>, k: nat) {
    exists i: nat :: FromLatest(adj, seen, r, k, i)
  }

  ghost predicate FromLatest<H(!new)>(adj: Adjacency<H>, seen: set<H>, r: seq<H>, k: nat, i: nat) {
    Follows(adj, seen, r, k, i) && forall j: nat :: i < j < k ==> Exhausted(adj, seen, r, k, j)
  }

  /** Node r[k] is the first new one of the list, and all nodes before it are exhausted. */
  ghost predicate FromList<H(!new)>(adj: Adjacency<H>, nodes: seq<H>, seen: set<H>, r: seq<H>, k: nat) {
    k < |r| && IsFirstNew(nodes, seen + Elems(r[..k]), r[k])
    && forall j: nat :: j < k ==> Exhausted(adj, seen, r, k, j)
  }

  ghost predicate Placed<H(!new)>(adj: Adjacency<H>, nodes: seq<H>, seen: set<H>, r: seq<H>, k: nat) {
    FromList(adj, nodes, seen, r, k) || FoundLate(adj, seen, r, k)
  }

  lemma FirstOfRest<H(!new)>(nodes: seq<H>, seen: set<H>, x: H)
    requires nodes != [] && nodes[0] in seen && IsFirstNew(nodes[1..], seen, x)
    ensures IsFirstNew(nodes, seen, x)
  {
    var p: nat :| p < |nodes[1..]| && nodes[1..][p] == x && forall q :: 0 <= q < p ==> nodes[1..][q] in seen;
    forall q | 0 <= q < p + 1 ensures nodes[q] in seen {
      assert q > 0 ==> nodes[q] == nodes[1..][q - 1];
    }
    assert nodes[p + 1] == x;
  }

  /** What holds of a part of the list after the front holds of the whole list. */
  lemma LatestInRest<H(!new)>(adj: Adjacency<H>, seen: set<H>, front: seq<H>, rest: seq<H>, k: nat, i: nat)
    requires FromLatest(adj, seen + Elems(front), rest, k, i)
    ensures FromLatest(adj, seen, front + rest, |front| + k, |front| + i)
  {
    var r := front + rest;
    var m := |front| + k;
    KnownInRest(seen, front, rest, k);
    forall j: nat | |front| + i < j < m ensures Exhausted(adj, seen, r, m, j) {
      assert Exhausted(adj, seen + Elems(front), rest, k, j - |front|);
    }
  }

  lemma KnownInRest<H(!new)>(seen: set<H>, front: seq<H>, rest: seq<H>, k: nat)
    requires k <= |rest|
    ensures seen + Elems((front + rest)[..|front| + k]) == seen + Elems(front) + Elems(rest[..k])
  {
    assert (front + rest)[..|front| + k] == front + rest[..k];
    ElemsConcat(front, rest[..k]);
  }

  /** The first visit: the head, then what is found from it. */
  lemma PlacedInFirst<H(!new)>(adj: Adjacency<H>, h: H, seen: set<H>, inner: seq<H>, k: nat)
    requires h in adj && Placed(adj, adj[h], seen + {h}, inner, k)
    ensures FoundLate(adj, seen, [h] + inner, k + 1)
  {
    assert Elems([h]) == {h};
    if FromList(adj, adj[h], seen + {h}, inner, k) {
      var r, m := [h] + inner, k + 1;
      KnownInRest(seen, [h], inner, k);
      forall j: nat | 0 < j < m ensures Exhausted(adj, seen, r, m, j) {
        assert Exhausted(adj, seen + {h}, inner, k, j - 1);
      }
      assert FromLatest(adj, seen, r, m, 0);
    } else {
      var i: nat :| FromLatest(adj, seen + {h}, inner, k, i);
      LatestInRest(adj, seen, [h], inner, k, i);
    }
  }

  lemma LatestInFront<H(!new)>(adj: Adjacency<H>, seen: set<H>, front: seq<H>, rest: seq<H>, k: nat, i: nat)
    requires FromLatest(adj, seen, front, k, i)
    ensures FromLatest(adj, seen, front + rest, k, i)
  {
    assert (front + rest)[..k] == front[..k];
    forall j: nat | i < j < k ensures Exhausted(adj, seen, front + rest, k, j) {
      assert Exhausted(adj, seen, front, k, j);
    }
  }

  lemma PlacedInRest<H(!new)>(adj: Adjacency<H>, nodes: seq<H>, seen: set<H>, front: seq<H>, rest: seq<H>, k: nat)
    requires nodes != [] && nodes[0] in front && Placed(adj, nodes[1..], seen + Elems(front), rest, k)
    requires forall x :: x in front ==> x in adj && forall y :: y in adj[x] ==> y in seen + Elems(front)
    ensures Placed(adj, nodes, seen, front + rest, |front| + k)
  {
    KnownInRest(seen, front, rest, k);
    if FromList(adj, nodes[1..], seen + Elems(front), rest, k) {
      var r, m := front + rest, |front| + k;
      FirstOfRest(nodes, seen + Elems(r[..m]), rest[k]);
      forall j: nat | j < m ensures Exhausted(adj, seen, r, m, j) {
        if j >= |front| {
          assert Exhausted(adj, seen + Elems(front), rest, k, j - |front|);
        } else {
          assert front[j] in front;
        }
      }
      assert FromList(adj, nodes, seen, r, m);
    } else {
      var i: nat :| FromLatest(adj, seen + Elems(front), rest, k, i);
      LatestInRest(adj, seen, front, rest, k, i);
    }
  }

  lemma PlacedHead<H(!new)>(adj: Adjacency<H>, nodes: seq<H>, seen: set<H>, r: seq<H>)
    requires nodes != [] && r != [] && r[0] == nodes[0] && nodes[0] !in seen
    ensures Placed(adj, nodes, seen, r, 0)
  {
    assert r[..0] == [] && seen + Elems(r[..0]) == seen;
    assert IsFirstNew(nodes, seen, r[0]);
    assert FromList(adj, nodes, seen, r, 0);
  }

  lemma PlacedSkip<H(!new)>(adj: Adjacency<H>, nodes: seq<H>, seen: set<H>, r: seq<H>, k: nat)
    requires nodes != [] && nodes[0] in seen && Placed(adj, nodes[1..], seen, r, k)
    ensures Placed(adj, nodes, seen, r, k)
  {
    if FromList(adj, nodes[1..], seen, r, k) {
      FirstOfRest(nodes, seen + Elems(r[..k]), r[k]);
      assert FromList(adj, nodes, seen, r, k);
    }
  }

  /** The step for an unseen node, from the same fact for its neighbours and for the rest. */
  lemma VisitPlaces<H(!new)>(adj: Adjacency<H>, h: H, tail: seq<H>, seen: set<H>, k: nat)
    requires WellFormed(adj) && h in adj && h !in seen && forall n :: n in tail ==> n in adj
    requires k < |PreorderAll(adj, [h] + tail, seen)|
    requires var first, inner := PreorderFrom(adj, h, seen), PreorderAll(adj, adj[h], seen + {h});
             var rest := PreorderAll(adj, tail, seen + Elems(first));
             && (0 < k <= |inner| ==> Placed(adj, adj[h], seen + {h}, inner, k - 1))
             && (k >= |first| && k - |first| < |rest| ==>
                   Placed(adj, tail, seen + Elems(first), rest, k - |first|))
    ensures Placed(adj, [h] + tail, seen, PreorderAll(adj, [h] + tail, seen), k)
  {
    hide Placed, Distinct;
    var first, inner := PreorderFrom(adj, h, seen), PreorderAll(adj, adj[h], seen + {h});
    var rest := PreorderAll(adj, tail, seen + Elems(first));
    PreorderVisit(adj, h, tail, seen);
    if k == 0 {
      PlacedHead(adj, [h] + tail, seen, first + rest);
    } else if k < |first| {
      InFirstVisit(adj, [h] + tail, seen, inner, rest, k);
    } else {
      FirstCovers(adj, h, seen);
      PlacedInRest(adj, [h] + tail, seen, first, rest, k - |first|);
    }
  }

  lemma PreorderOfNone<H(!new)>(adj: Adjacency<H>, seen: set<H>)
    requires WellFormed(adj)
    ensures PreorderAll(adj, [], seen) == []
  {
  }

  lemma PreorderSkip<H(!new)>(adj: Adjacency<H>, h: H, tail: seq<H>, seen: set<H>)
    requires WellFormed(adj) && h in adj && h in seen && forall n :: n in tail ==> n in adj
    ensures PreorderAll(adj, [h] + tail, seen) == PreorderAll(adj, tail, seen)
  {
    assert ([h] + tail)[1..] == tail;
  }

  /** Every node of a recursive visit is found from the latest node that still has a new neighbour. */
  lemma {:induction false} PreorderPlaces<H(!new)>(adj: Adjacency<H>, nodes: seq<H>, seen: set<H>, k: nat)
    requires WellFormed(adj) && (forall n :: n in nodes ==> n in adj) && k < |PreorderAll(adj, nodes, seen)|
    ensures Placed(adj, nodes, seen, PreorderAll(adj, nodes, seen), k)
    decreases |adj.Keys - seen|, |nodes|
  {
    hide PreorderAll, Placed, Distinct;
    PreorderOfNone(adj, seen);
    var h, tail := nodes[0], nodes[1..];
    assert nodes == [h] + tail;
    if h in seen {
      PreorderSkip(adj, h, tail, seen);
      PreorderPlaces(adj, tail, seen, k);
      PlacedSkip(adj, nodes, seen, PreorderAll(adj, nodes, seen), k);
    } else {
      var first, inner := PreorderFrom(adj, h, seen), PreorderAll(adj, adj[h], seen + {h});
      FewerUnseen(adj.Keys, seen, {h}, h);
      FewerUnseen(adj.Keys, seen, Elems(first), h);
      PreorderVisit(adj, h, tail, seen);
      if 0 < k <= |inner| {
        PreorderPlaces(adj, adj[h], seen + {h}, k - 1);
      } else if k > 0 {
        PreorderPlaces(adj, tail, seen + Elems(first), k - |first|);
      }
      VisitPlaces(adj, h, tail, seen, k);
    }
  }

  lemma InFirstVisit<H(!new)>(adj: Adjacency<H>, nodes: seq<H>, seen: set<H>, inner: seq<H>, rest: seq<H>, k: nat)
    requires nodes != [] && nodes[0] in adj && 0 < k <= |inner|
    requires Placed(adj, adj[nodes[0]], seen + {nodes[0]}, inner, k - 1)
    ensures Placed(adj, nodes, seen, [nodes[0]] + inner + rest, k)
  {
    PlacedInFirst(adj, nodes[0], seen, inner, k - 1);
    var i: nat :| FromLatest(adj, seen, [nodes[0]] + inner, k, i);
    LatestInFront(adj, seen, [nodes[0]] + inner, rest, k, i);
  }

  lemma FirstCovers<H(!new)>(adj: Adjacency<H>, h: H, seen: set<H>)
    requires WellFormed(adj) && h in adj && h !in seen
    ensures var first := PreorderFrom(adj, h, seen);
            forall x :: x in first ==> x in adj && forall y :: y in adj[x] ==> y in seen + Elems(first)
  {
    var first := PreorderFrom(adj, h, seen);
    assert PreorderAll(adj, [h], seen) == first by {
      assert PreorderAll(adj, [], seen + Elems(first)) == [];
    }
    PreorderCovers(adj, [h], seen);
    PreorderOnce(adj, [h], seen);
  }

  /** The recursive preorder is a depth-first order. */
  lemma PreorderIsDepthFirst<H(!new)>(adj: Adjacency<H>, start: H)
    requires WellFormed(adj) && start in adj
    ensures DepthFirst(adj, PreorderFrom(adj, start, {}))
  {
    var r := PreorderFrom(adj, start, {});
    assert PreorderAll(adj, [start], {}) == r by {
      assert PreorderAll(adj, [], Elems(r)) == [];
    }
    forall k | 0 < k < |r| ensures FoundLate(adj, {}, r, k) {
      PreorderPlaces(adj, [start], {}, k);
      assert r[0] in Elems(r[..k]) by {
        assert r[..k][0] == r[0];
      }
    }
  }

  /** Discovery k comes from the earliest node of the order that still has a new neighbour. */
  ghost predicate FoundFrom<H(!new)>(adj: Adjacency<H>, order: seq<H>, seen: set<H>, found: seq<H>, k: nat, i: nat) {
    && i < |order| && k < |found| && order[i] in adj
    && IsFirstNew(adj[order[i]], seen + Elems(found[..k]), found[k])
    && forall j: nat, n :: j < i && order[j] in adj && n in adj[order[j]] ==> n in seen + Elems(found[..k])
  }

  lemma {:induction false} NewOnesAreFirst<H(!new)>(list: seq<H>, seen: set<H>, k: nat)
    requires k < |NewOnes(list, seen)|
    ensures IsFirstNew(list, seen + Elems(NewOnes(list, seen)[..k]), NewOnes(list, seen)[k])
  {
    var r := NewOnes(list, seen);
    if list[0] in seen {
      NewOnesAreFirst(list[1..], seen, k);
      FirstOfRest(list, seen + Elems(r[..k]), r[k]);
    } else if k == 0 {
      assert r[..0] == [] && seen + Elems(r[..0]) == seen;
    } else {
      var more := NewOnes(list[1..], seen + {list[0]});
      NewOnesAreFirst(list[1..], seen + {list[0]}, k - 1);
      KnownInRest(seen, [list[0]], more, k - 1);
      assert Elems([list[0]]) == {list[0]};
      FirstOfRest(list, seen + Elems(r[..k]), r[k]);
    }
  }

  lemma {:induction false} DiscoveryIsEarliest<H(!new)>(adj: Adjacency<H>, order: seq<H>, seen: set<H>, k: nat)
    returns (i: nat)
    requires (forall n :: n in order ==> n in adj) && k < |Discovered(adj, order, seen)|
    ensures FoundFrom(adj, order, seen, Discovered(adj, order, seen), k, i)
  {
    hide NewOnes, IsFirstNew;
    var first := NewOnes(adj[order[0]], seen);
    var rest := Discovered(adj, order[1..], seen + Elems(first));
    var found := first + rest;
    if k < |first| {
      NewOnesAreFirst(adj[order[0]], seen, k);
      assert found[..k] == first[..k];
      i := 0;
    } else {
      i := DiscoveryIsEarliest(adj, order[1..], seen + Elems(first), k - |first|);
      KnownInRest(seen, first, rest, k - |first|);
      i := i + 1;
      forall j: nat, n | j < i && order[j] in adj && n in adj[order[j]] ensures n in seen + Elems(found[..k]) {
        if j > 0 {
          assert order[1..][j - 1] == order[j];
        }
      }
    }
  }

  /** If every reachable node is listed once and the list is its own discoveries, it is a breadth-first order. */
  lemma DiscoveredIsBreadthFirst<H(!new)>(adj: Adjacency<H>, start: H, r: seq<H>)
    requires WellFormed(adj) && Distinct(r) && (forall n :: n in r ==> n in adj)
    requires forall x :: x in r ==> Reachable(adj, start, x)
    requires r == [start] + Discovered(adj, r, {start})
    ensures BreadthFirst(adj, r)
  {
    forall k | 0 < k < |r| ensures FoundEarly(adj, r, k) {
      var i := EarliestExists(adj, start, r, k);
    }
  }

  lemma EarliestExists<H(!new)>(adj: Adjacency<H>, start: H, r: seq<H>, k: nat) returns (i: nat)
    requires WellFormed(adj) && Distinct(r) && (forall n :: n in r ==> n in adj) && 0 < k < |r|
    requires Reachable(adj, start, r[k])
    requires r == [start] + Discovered(adj, r, {start})
    ensures FromEarliest(adj, r, k, i)
  {
    hide WellFormed, Reachable, IsFirstNew, Discovered;
    var found := Discovered(adj, r, {start});
    i := DiscoveryIsEarliest(adj, r, {start}, k - 1);
    KnownInRest({}, [start], found, k - 1);
    assert Elems([start]) == {start} && {} + {start} == {start};
    if i >= k {
      NotReached(adj, start, r, k);
    }
  }

  /** The nodes before k do not all lead back to each other, as otherwise nothing after them is reachable. */
  lemma NotReached<H(!new)>(adj: Adjacency<H>, start: H, r: seq<H>, k: nat)
    requires 0 < k < |r| && r[0] == start && Distinct(r)
    requires forall j: nat, n :: j < k && r[j] in adj && n in adj[r[j]] ==> n in Elems(r[..k])
    ensures !Reachable(adj, start, r[k])
  {
    var s := Elems(r[..k]);
    assert r[..k][0] == start;
    forall x, y | x in s && x in adj && y in adj[x] ensures y in s {
      var j: nat :| j < k && r[..k][j] == x;
      assert r[j] == x;
    }
    assert r[k] !in s;
    forall m: nat ensures r[k] !in Within(adj, start, m) {
      WithinClosed(adj, start, s, m);
    }
  }

  // The class

  class Graph<H(==, !new)> {
    const directed: bool
    var adj: Adjacency<H>

    ghost predicate Valid()
      reads this
    {
      WellFormed(adj) && (!directed ==> Symmetric(adj))
    }

    constructor (directed: bool)
      ensures Valid() && this.directed == directed && adj == map[]
    {
      this.directed := directed;
      adj := map[];
    }

    method AddNode(node: H)
      requires Valid()
      modifies this
      ensures Valid()
      ensures adj == if node in old(adj) then old(adj) else old(adj)[node := []]
    {
      if node !in adj {
        adj := adj[node := []];
      }
      assert forall u, v :: IsEdge(adj, u, v) <==> IsEdge(old(adj), u, v);
    }

    /** The edge is there afterwards, both ways unless directed; nothing else changes or moves. */
    method AddEdge(source: H, target: H)
      requires Valid()
      modifies this
      ensures Valid()
      ensures adj.Keys == old(adj.Keys) + {source, target}
      ensures forall u, v :: IsEdge(adj, u, v) <==> IsEdge(old(adj), u, v) || (u == source && v == target)
                                                    || (!directed && u == target && v == source)
      ensures forall u :: u in old(adj) ==> old(adj)[u] <= adj[u]
    {
      AddNode(source);
      AddNode(target);
      ghost var base := adj;
      WithNeighborCorrect(adj, source, target);
      if target !in adj[source] {
        adj := adj[source := adj[source] + [target]];
      }
      assert adj == WithNeighbor(base, source, target);
      if !directed {
        WithNeighborCorrect(adj, target, source);
        ghost var half := adj;
        if source !in adj[target] {
          adj := adj[target := adj[target] + [source]];
        }
        assert adj == WithNeighbor(half, target, source);
      }
    }

    method Neighbors(node: H) returns (r: Result<seq<H>, GraphError>)
      ensures r == if node in adj then Ok(adj[node]) else Err(UnknownNode)
    {
      if node !in adj {
        return Err(UnknownNode);
      }
      return Ok(adj[node]);
    }

    /** Lists exactly the reachable nodes, each once, nearer ones first, each found from the earliest node that can. */
    method Bfs(start: H) returns (r: Result<seq<H>, GraphError>)
      requires Valid()
      ensures r.Ok? <==> start in adj
      ensures r.Ok? ==> Distinct(r.value) && forall x :: x in r.value <==> Reachable(adj, start, x)
      ensures r.Ok? ==> forall i, j :: 0 <= i < j < |r.value| ==> NotFarther(adj, start, r.value[i], r.value[j])
      ensures r.Ok? ==>
                (forall n :: n in r.value ==> n in adj) && r.value == [start] + Discovered(adj, r.value, {start})
      ensures r.Ok? ==> r.value[0] == start && BreadthFirst(adj, r.value)
    {
      if start !in adj {
        return Err(UnknownNode);
      }
      var seen := {start};
      var order: seq<H> := [];
      var pending := [start];
      ghost var level: nat, near: nat := 0, 1;
      SearchStarts(adj, start);
      QueueStarts(adj, start);
      while pending != []
        invariant Searching(adj, start, order, pending, seen, level, near)
        invariant QueueOf(adj, start, order, pending, seen)
        decreases |adj.Keys - Elems(order)|
      {
        if near == 0 {
          NextLevel(adj, start, order, pending, seen, level);
          level, near := level + 1, |pending|;
        }
        Turn(adj, start, order, pending, seen, level, near);
        QueueStep(adj, start, order, pending, seen);
        TurnProgress(adj, start, order, pending, seen, level, near);
        var node := pending[0];
        pending := pending[1..];
        order := order + [node];
        seen, pending := Enqueue(adj[node], seen, pending);
        near := near - 1;
      }
      SearchEnds(adj, start, order, seen, level);
      assert order + pending == order by { assert pending == []; }
      DiscoveredIsBreadthFirst(adj, start, order);
      return Ok(order);
    }

    /** Lists exactly the reachable nodes, each once, each found from the latest node that has a new neighbour. */
    method Dfs(start: H) returns (r: Result<seq<H>, GraphError>)
      requires Valid()
      ensures r.Ok? ==> Distinct(r.value) && forall x :: x in r.value <==> Reachable(adj, start, x)
      ensures r.Ok? ==> r.value != [] && r.value[0] == start && DepthFirst(adj, r.value)
      ensures r == if start in adj then Ok(PreorderFrom(adj, start, {})) else Err(UnknownNode)
    {
      if start !in adj {
        return Err(UnknownNode);
      }
      hide Reversed, PreorderFrom, Worklist, DepthFirst, Reachable, Distinct;
      var seen: set<H> := {};
      var order: seq<H> := [];
      var pending := [start];
      WorklistOfOne(adj, start);
      ghost var goal := PreorderFrom(adj, start, {});
      while pending != []
        invariant forall n :: n in Reversed(pending) ==> n in adj
        invariant order + Worklist(adj, Reversed(pending), seen) == goal
        decreases |adj.Keys - seen|, |pending|
      {
        ReversedPop(pending);
        var node := pending[|pending| - 1];
        pending := pending[..|pending| - 1];
        if node !in seen {
          FewerUnseen(adj.Keys, seen, {node}, node);
          WorklistStep(adj, Reversed(pending), seen, node);
          seen := seen + {node};
          order := order + [node];
          ReversedPush(pending, adj[node]);
          pending := pending + Reversed(adj[node]);
        } else {
          WorklistSkip(adj, Reversed(pending), seen, node);
        }
      }
      NothingToVisit(adj, seen);
      assert order + [] == order && Reversed(pending) == [];
      PreorderIsReachability(adj, start);
      PreorderIsDepthFirst(adj, start);
      return Ok(order);
    }
  }

  lemma NothingToVisit<H(!new)>(adj: Adjacency<H>, seen: set<H>)
    requires WellFormed(adj)
    ensures Worklist(adj, [], seen) == []
  {
  }

  /** Visiting the first node of the worklist. */
  lemma WorklistStep<H(!new)>(adj: Adjacency<H>, rest: seq<H>, seen: set<H>, node: H)
    requires WellFormed(adj) && node in adj && node !in seen && forall n :: n in rest ==> n in adj
    ensures Worklist(adj, [node] + rest, seen) == [node] + Worklist(adj, adj[node] + rest, seen + {node})
  {
    assert ([node] + rest)[1..] == rest;
  }

  lemma WorklistSkip<H(!new)>(adj: Adjacency<H>, rest: seq<H>, seen: set<H>, node: H)
    requires WellFormed(adj) && node in adj && node in seen && forall n :: n in rest ==> n in adj
    ensures Worklist(adj, [node] + rest, seen) == Worklist(adj, rest, seen)
  {
    assert ([node] + rest)[1..] == rest;
  }

  lemma WorklistOfOne<H(!new)>(adj: Adjacency<H>, start: H)
    requires WellFormed(adj) && start in adj
    ensures Reversed([start]) == [start]
    ensures Worklist(adj, [start], {}) == PreorderFrom(adj, start, {})
  {
    var r := PreorderFrom(adj, start, {});
    assert PreorderAll(adj, [start], {}) == r by {
      assert PreorderAll(adj, [], Elems(r)) == [];
    }
    WorklistIsPreorder(adj, [start], [], {});
    assert [start] + [] == [start];
  }

  lemma NewOnesAppend<H(!new)>(list: seq<H>, seen: set<H>, x: H)
    ensures NewOnes(list + [x], seen) ==
            if x in seen || x in list then NewOnes(list, seen) else NewOnes(list, seen) + [x]
  {
    if list == [] {
      assert list + [x] == [x] && [x][1..] == [];
    } else {
      assert (list + [x])[1..] == list[1..] + [x];
      assert list == [list[0]] + list[1..];
      NewOnesAppend(list[1..], if list[0] in seen then seen else seen + {list[0]}, x);
    }
  }

  lemma TurnProgress<H(!new)>(adj: Adjacency<H>, start: H, order: seq<H>, pending: seq<H>, seen: set<H>, level: nat,
                              near: nat)
    requires Searching(adj, start, order, pending, seen, level, near) && pending != []
    ensures |adj.Keys - Elems(order + [pending[0]])| < |adj.Keys - Elems(order)|
  {
    assert (order + pending)[|order|] == pending[0];
    forall j | 0 <= j < |order| ensures order[j] != pending[0] {
      assert (order + pending)[j] == order[j];
    }
    assert pending[0] in seen;
    FewerUnseen(adj.Keys, Elems(order), {pending[0]}, pending[0]);
    ElemsConcat(order, [pending[0]]);
    assert Elems([pending[0]]) == {pending[0]};
  }

  lemma SearchStarts<H(!new)>(adj: Adjacency<H>, start: H)
    requires start in adj
    ensures Searching(adj, start, [], [start], {start}, 0, 1)
  {
    assert [start][..1] == [start] && [start][1..] == [] && [] + [start] == [start];
  }

  /** With an empty queue everything reachable has been listed. */
  lemma SearchEnds<H(!new)>(adj: Adjacency<H>, start: H, order: seq<H>, seen: set<H>, level: nat)
    requires WellFormed(adj) && Searching(adj, start, order, [], seen, level, 0)
    ensures Distinct(order) && forall x :: x in order <==> Reachable(adj, start, x)
  {
    assert order + [] == order;
    WithinGrows(adj, start, 0, level);
    forall x | Reachable(adj, start, x) ensures x in order {
      var k: nat :| x in Within(adj, start, k);
      WithinClosed(adj, start, seen, k);
    }
    forall x | x in order ensures Reachable(adj, start, x) {
      assert x in Within(adj, start, level);
    }
  }
}
