/** The path searches of python/algorithm/006.graph_bfs_dfs.py on a directed graph given as a dictionary of successor
    lists: BFS_path with back pointers, and the recursive DFS_path. */
module PathSearch {
  import opened Sequences

  type Graph<!Node(==)> = map<Node, seq<Node>>

  /** Every node that is mentioned has an entry of its own. */
  predicate Closed<Node(==)>(g: Graph<Node>) {
    forall u, i | u in g && 0 <= i < |g[u]| :: g[u][i] in g
  }

  predicate IsPath<Node(==)>(g: Graph<Node>, p: seq<Node>) {
    && p != []
    && (forall i | 0 <= i < |p| :: p[i] in g)
    && (forall i | 0 <= i < |p| - 1 :: p[i + 1] in g[p[i]])
  }

  /** A path from `s` to a target. */
  predicate Leads<Node(==)>(g: Graph<Node>, target: Node -> bool, s: Node, p: seq<Node>) {
    IsPath(g, p) && p[0] == s && target(p[|p| - 1])
  }

  ghost predicate TargetReachable<Node(!new)>(g: Graph<Node>, target: Node -> bool, s: Node) {
    exists p :: Leads(g, target, s, p)
  }

  /** A set of nodes without targets that no edge leaves has no path to a target. */
  lemma {:induction false} NoWayOut<Node>(g: Graph<Node>, target: Node -> bool, p: seq<Node>, inside: set<Node>)
    requires IsPath(g, p) && p[0] in inside
    requires forall u | u in inside :: !target(u) && (u in g ==> forall i | 0 <= i < |g[u]| :: g[u][i] in inside)
    ensures !target(p[|p| - 1])
  {
    if |p| > 1 {
      assert p[1] in g[p[0]];
      NoWayOut(g, target, p[1..], inside);
    }
  }

  lemma LeadsOn<Node>(g: Graph<Node>, target: Node -> bool, u: Node, k: nat, p: seq<Node>)
    requires u in g && k < |g[u]| && Leads(g, target, g[u][k], p)
    ensures Leads(g, target, u, [u] + p)
  {
    var q := [u] + p;
    assert forall i | 0 <= i < |q| - 1 :: i > 0 ==> q[i + 1] == p[i] && q[i] == p[i - 1];
  }

  // ---- depth first ----

  class DfsSearch<Node(==)> {
    const graph: Graph<Node>
    const target: Node -> bool
    var visited: set<Node>

    constructor (graph: Graph<Node>, target: Node -> bool)
      ensures this.graph == graph && this.target == target && visited == {}
    {
      this.graph, this.target, visited := graph, target, {};
    }

    /** Dead ends are left without being marked as visited. */
    predicate DeadEnd(n: Node) {
      n in graph && graph[n] == [] && !target(n)
    }

    /** `n` is known not to be a target, and its successors have been seen. */
    ghost predicate Done(n: Node, seen: set<Node>) {
      && n in graph && !target(n)
      && forall i | 0 <= i < |graph[n]| :: graph[n][i] in seen || DeadEnd(graph[n][i])
    }

    lemma DoneGrows(nodes: set<Node>, seen: set<Node>, more: set<Node>)
      requires seen <= more && forall n | n in nodes :: Done(n, seen)
      ensures forall n | n in nodes :: Done(n, more)
    {
    }

    /** recurse: a path to a target, or all nodes visited on the way are done. */
    method Recurse(item: Node) returns (found: bool, path: seq<Node>)
      requires Closed(graph) && item in graph && item !in visited && visited <= graph.Keys
      modifies this
      ensures old(visited) <= visited <= graph.Keys
      ensures found ==> Leads(graph, target, item, path)
      ensures !found ==> path == [] && (item in visited || DeadEnd(item))
      ensures !found ==> forall n | n in visited - old(visited) :: Done(n, visited)
      decreases |graph.Keys - visited|
    {
      if graph[item] == [] {
        if !target(item) {
          return false, [];
        }
      }
      if target(item) {
        return true, [item];
      }
      visited := visited + {item};
      assert graph.Keys - visited < graph.Keys - old(visited) by {
        assert item in graph.Keys - old(visited);
      }
      Smaller(graph.Keys - visited, graph.Keys - old(visited));
      var k := 0;
      while k < |graph[item]|
        invariant k <= |graph[item]| && old(visited) + {item} <= visited <= graph.Keys
        invariant |graph.Keys - visited| < |graph.Keys - old(visited)|
        invariant forall i | 0 <= i < k :: graph[item][i] in visited || DeadEnd(graph[item][i])
        invariant forall n | n in visited - old(visited) && n != item :: Done(n, visited)
      {
        var i := graph[item][k];
        if i !in visited {
          ghost var before := visited;
          found, path := Recurse(i);
          if found {
            LeadsOn(graph, target, item, k, path);
            return true, [item] + path;
          }
          Shrunk(graph.Keys, before, visited);
          DoneGrows(before - old(visited) - {item}, before, visited);
        }
        k := k + 1;
      }
      return false, [];
    }
  }

  lemma Smaller<T>(a: set<T>, b: set<T>)
    requires a < b
    ensures |a| < |b|
  {
    assert b == a + (b - a);
  }

  lemma Shrunk<T>(all: set<T>, a: set<T>, b: set<T>)
    requires a <= b <= all
    ensures |all - b| <= |all - a| && (a != b ==> |all - b| < |all - a|)
  {
    assert all - a == (all - b) + (b - a);
    assert a != b ==> b - a != {};
  }

  /** DFS_path finds a path to a target exactly when there is one. */
  method DfsPath<Node(!new)>(graph: Graph<Node>, target: Node -> bool, start: Node)
    returns (found: bool, path: seq<Node>)
    requires Closed(graph) && start in graph
    ensures found <==> TargetReachable(graph, target, start)
    ensures found ==> Leads(graph, target, start, path)
    ensures !found ==> path == []
  {
    var search := new DfsSearch(graph, target);
    found, path := search.Recurse(start);
    if !found {
      ghost var inside := set n | n in graph && (n in search.visited || search.DeadEnd(n));
      forall p | IsPath(graph, p) && p[0] == start
        ensures !target(p[|p| - 1])
      {
        forall u | u in inside
          ensures !target(u) && (u in graph ==> forall i | 0 <= i < |graph[u]| :: graph[u][i] in inside)
        {
          assert u in search.visited ==> search.Done(u, search.visited);
        }
        NoWayOut(graph, target, p, inside);
      }
    }
  }

  // ---- breadth first ----

  /** The back pointers lead to the start, one edge each; `dist` counts the edges. */
  ghost predicate BackTree<Node>(g: Graph<Node>, s: Node, searched: set<Node>, back: map<Node, Node>,
                                 dist: map<Node, nat>) {
    && s in searched && searched <= g.Keys && dist.Keys == searched && dist[s] == 0
    && forall w | w in searched && w != s ::
         w in back && back[w] in searched && w in g[back[w]] && dist[w] == dist[back[w]] + 1
  }

  /** The queue holds what has been searched and not expanded, by increasing distance, on at most two levels from `d`
      on; the expanded nodes are not beyond `d`. */
  ghost predicate Queued<Node>(queue: seq<Node>, searched: set<Node>, expanded: set<Node>, dist: map<Node, nat>, d: nat)
  {
    && dist.Keys == searched && expanded <= searched && (forall n | n in searched :: n in expanded || n in queue)
    && (forall n | n in expanded :: dist[n] <= d)
    && (forall i | 0 <= i < |queue| :: queue[i] in searched && d <= dist[queue[i]] <= d + 1)
    && (forall i, j | 0 <= i < j < |queue| :: dist[queue[i]] <= dist[queue[j]])
  }

  /** Expanded nodes are no targets, and their successors are at most one edge further. */
  ghost predicate Expanded<Node>(g: Graph<Node>, target: Node -> bool, expanded: set<Node>, dist: map<Node, nat>) {
    forall u | u in expanded ::
      u in g && u in dist && !target(u) && forall i | 0 <= i < |g[u]| :: g[u][i] in dist && dist[g[u][i]] <= dist[u] + 1
  }

  /** While all nodes nearer than `d` are expanded, a path to a target has at least `d` edges. */
  lemma {:induction false} NotNearer<Node>(g: Graph<Node>, target: Node -> bool, p: seq<Node>, expanded: set<Node>,
                                           dist: map<Node, nat>, d: nat)
    requires IsPath(g, p) && target(p[|p| - 1]) && p[0] in dist
    requires Expanded(g, target, expanded, dist) && forall u | u in dist && dist[u] < d :: u in expanded
    ensures d < |p| + dist[p[0]]
  {
    if dist[p[0]] < d && |p| > 1 {
      assert p[0] in expanded && p[1] in g[p[0]];
      NotNearer(g, target, p[1..], expanded, dist, d);
    }
  }

  /** The walk along the back pointers. */
  method WalkBack<Node>(g: Graph<Node>, target: Node -> bool, s: Node, end: Node, searched: set<Node>,
                        back: map<Node, Node>,
                        ghost dist: map<Node, nat>) returns (path: seq<Node>)
    requires BackTree(g, s, searched, back, dist) && end in searched && end != s && target(end)
    ensures Leads(g, target, s, path) && |path| == dist[end] + 1
  {
    path := [end];
    var prev := back[end];
    assert Reverse([end]) == [end];
    LeadsBack(g, target, prev, end, [end]);
    while prev != s
      invariant prev in searched && dist[prev] + |path| == dist[end]
      invariant Leads(g, target, prev, [prev] + Reverse(path))
      decreases dist[prev]
    {
      ReverseLast(path, prev);
      path := path + [prev];
      LeadsBack(g, target, back[prev], prev, Reverse(path));
      prev := back[prev];
    }
    ReverseLast(path, s);
    path := path + [s];
    path := Reverse(path);
  }

  lemma LeadsBack<Node>(g: Graph<Node>, target: Node -> bool, u: Node, w: Node, p: seq<Node>)
    requires u in g && w in g[u] && Leads(g, target, w, p)
    ensures Leads(g, target, u, [u] + p)
  {
    var k :| 0 <= k < |g[u]| && g[u][k] == w;
    LeadsOn(g, target, u, k, p);
  }

  /** The first `k` successors of `v` are at most one edge behind it. */
  ghost predicate Near<Node>(g: Graph<Node>, v: Node, k: nat, dist: map<Node, nat>, d: nat) {
    v in g && k <= |g[v]| && forall i | 0 <= i < k :: g[v][i] in dist && dist[g[v][i]] <= d + 1
  }

  ghost predicate Extends<Node>(dist0: map<Node, nat>, dist: map<Node, nat>) {
    forall u | u in dist0 :: u in dist && dist[u] == dist0[u]
  }

  lemma NearNext<Node>(g: Graph<Node>, v: Node, k: nat, dist: map<Node, nat>, dist': map<Node, nat>, d: nat)
    requires Near(g, v, k, dist, d) && k < |g[v]| && (dist == dist' || Extends(dist, dist'))
    requires g[v][k] in dist' && dist'[g[v][k]] <= d + 1
    ensures Near(g, v, k + 1, dist', d)
  {
  }

  lemma QueuedPop<Node>(queue: seq<Node>, searched: set<Node>, expanded: set<Node>, dist: map<Node, nat>, d: nat)
    requires Queued(queue, searched, expanded, dist, d) && queue != []
    ensures queue[0] in searched && queue[0] in dist
    ensures forall u | u in dist && dist[u] < dist[queue[0]] :: u in expanded
    ensures Queued(queue[1..], searched, expanded + {queue[0]}, dist, dist[queue[0]])
  {
    var rest := queue[1..];
    forall n | n in searched
      ensures n in expanded + {queue[0]} || n in rest
      ensures n !in expanded ==> dist[queue[0]] <= dist[n]
    {
      if n !in expanded {
        var i :| 0 <= i < |queue| && queue[i] == n;
        assert i > 0 ==> rest[i - 1] == n;
      }
    }
  }

  lemma QueuedAdd<Node>(queue: seq<Node>, searched: set<Node>, expanded: set<Node>, dist: map<Node, nat>, d: nat,
                        w: Node)
    requires Queued(queue, searched, expanded, dist, d) && w !in searched
    ensures Queued(queue + [w], searched + {w}, expanded, dist[w := d + 1], d)
  {
    var more := queue + [w];
    assert more[|queue|] == w;
    assert forall n | n in queue :: n in more;
  }

  lemma QueuedBound<Node>(queue: seq<Node>, searched: set<Node>, expanded: set<Node>, dist: map<Node, nat>, d: nat,
                          w: Node)
    requires Queued(queue, searched, expanded, dist, d) && w in searched
    ensures w in dist && dist[w] <= d + 1
  {
    if w in queue {
      var i :| 0 <= i < |queue| && queue[i] == w;
    }
  }

  lemma BackTreeAdd<Node>(g: Graph<Node>, s: Node, searched: set<Node>, back: map<Node, Node>, dist: map<Node, nat>,
                          v: Node, w: Node)
    requires BackTree(g, s, searched, back, dist) && v in searched && w in g[v] && w !in searched && w in g
    ensures BackTree(g, s, searched + {w}, back[w := v], dist[w := dist[v] + 1])
  {
  }

  /** The loop over the successors of `v`, which has just left the queue. */
  method Enqueue<Node>(g: Graph<Node>, v: Node, queue0: seq<Node>, searched0: set<Node>, back0: map<Node, Node>,
                       ghost s: Node, ghost expanded: set<Node>, ghost dist0: map<Node, nat>)
    returns (queue: seq<Node>, searched: set<Node>, back: map<Node, Node>, ghost dist: map<Node, nat>)
    requires Closed(g) && BackTree(g, s, searched0, back0, dist0) && v in searched0 && v in expanded
    requires Queued(queue0, searched0, expanded, dist0, dist0[v])
    ensures BackTree(g, s, searched, back, dist) && Queued(queue, searched, expanded, dist, dist0[v])
    ensures dist.Keys == searched && searched0 <= searched <= g.Keys
    ensures Extends(dist0, dist) && Near(g, v, |g[v]|, dist, dist0[v])
    ensures searched == searched0 ==> queue == queue0
  {
    queue, searched, back, dist := queue0, searched0, back0, dist0;
    var nodes := g[v];
    var k := 0;
    assert Near(g, v, 0, dist, dist0[v]) && Known(g, searched0, searched, dist);
    assert Extends(dist0, dist);
    hide *;
    while k < |nodes|
      invariant k <= |nodes| && Known(g, searched0, searched, dist)
      invariant BackTree(g, s, searched, back, dist) && Queued(queue, searched, expanded, dist, dist0[v])
      invariant Extends(dist0, dist) && Near(g, v, k, dist, dist0[v])
      invariant searched == searched0 ==> queue == queue0
    {
      var w := nodes[k];
      if w in searched {
        QueuedBound(queue, searched, expanded, dist, dist0[v], w);
        NearNext(g, v, k, dist, dist, dist0[v]);
      } else {
        Enqueued(g, v, k, queue, searched, back, s, expanded, dist0, dist, dist0[v], w);
        KnownAdd(g, searched0, searched, dist, w, dist0[v] + 1);
        queue := queue + [w];
        searched := searched + {w};
        back := back[w := v];
        dist := dist[w := dist0[v] + 1];
      }
      k := k + 1;
    }
    KnownParts(g, searched0, searched, dist);
  }

  /** The distances are those of the nodes that have been searched. */
  ghost predicate Known<Node>(g: Graph<Node>, searched0: set<Node>, searched: set<Node>, dist: map<Node, nat>) {
    dist.Keys == searched && searched0 <= searched <= g.Keys
  }

  lemma KnownParts<Node>(g: Graph<Node>, searched0: set<Node>, searched: set<Node>, dist: map<Node, nat>)
    requires Known(g, searched0, searched, dist)
    ensures dist.Keys == searched && searched0 <= searched <= g.Keys
  {
  }

  lemma KnownAdd<Node>(g: Graph<Node>, searched0: set<Node>, searched: set<Node>, dist: map<Node, nat>, w: Node, d: nat)
    requires Known(g, searched0, searched, dist) && w in g && w !in searched
    ensures Known(g, searched0, searched + {w}, dist[w := d]) && searched + {w} != searched0
  {
    assert w in searched + {w} && w !in searched0;
  }

  lemma Enqueued<Node>(g: Graph<Node>, v: Node, k: nat, queue: seq<Node>, searched: set<Node>, back: map<Node, Node>,
                       s: Node,
                       expanded: set<Node>, dist0: map<Node, nat>, dist: map<Node, nat>, d: nat, w: Node)
    requires Closed(g) && Near(g, v, k, dist, d) && k < |g[v]| && w == g[v][k] && w !in searched
    requires BackTree(g, s, searched, back, dist) && Queued(queue, searched, expanded, dist, d)
    requires Extends(dist0, dist) && v in dist0 && d == dist0[v]
    ensures w in g && BackTree(g, s, searched + {w}, back[w := v], dist[w := d + 1])
    ensures Queued(queue + [w], searched + {w}, expanded, dist[w := d + 1], d)
    ensures Extends(dist0, dist[w := d + 1]) && Near(g, v, k + 1, dist[w := d + 1], d)
  {
    QueuedAdd(queue, searched, expanded, dist, d, w);
    BackTreeAdd(g, s, searched, back, dist, v, w);
    NearNext(g, v, k, dist, dist[w := d + 1], d);
  }

  lemma ExpandedMore<Node>(g: Graph<Node>, target: Node -> bool, expanded: set<Node>, dist0: map<Node, nat>,
                           dist: map<Node, nat>, v: Node, d: nat)
    requires Expanded(g, target, expanded, dist0) && v in g && v in dist0 && dist0[v] == d && !target(v)
    requires Extends(dist0, dist) && Near(g, v, |g[v]|, dist, d)
    ensures Expanded(g, target, expanded + {v}, dist)
  {
  }

  /** With an empty queue, no edge leaves the expanded nodes. */
  lemma AllExpanded<Node>(g: Graph<Node>, target: Node -> bool, s: Node, searched: set<Node>, back: map<Node, Node>,
                          expanded: set<Node>, dist: map<Node, nat>, d: nat)
    requires BackTree(g, s, searched, back, dist) && Queued([], searched, expanded, dist, d)
    requires Expanded(g, target, expanded, dist)
    ensures s in expanded
    ensures forall u | u in expanded :: !target(u) && (u in g ==> forall i | 0 <= i < |g[u]| :: g[u][i] in expanded)
  {
  }

  /** BFS_path finds a path with the fewest edges from the start to a target exactly when there is a path and the start
      is no target itself: a start that is a target is reported as a failure. */
  method BfsPath<Node(!new)>(graph: Graph<Node>, target: Node -> bool, s: Node) returns (found: bool, path: seq<Node>)
    requires Closed(graph) && s in graph
    ensures found <==> !target(s) && TargetReachable(graph, target, s)
    ensures found ==> Leads(graph, target, s, path)
    ensures found ==> forall p | Leads(graph, target, s, p) :: |path| <= |p|
    ensures !found ==> path == []
  {
    var queue := [s];
    var back: map<Node, Node> := map[];
    var end := s;
    var searched := {s};
    ghost var expanded: set<Node>, dist: map<Node, nat>, d: nat := {}, map[s := 0], 0;
    while |queue| > 0
      invariant BackTree(graph, s, searched, back, dist) && Queued(queue, searched, expanded, dist, d)
      invariant Expanded(graph, target, expanded, dist) && end == s
      decreases |graph.Keys - searched|, |queue|
    {
      var vertex := queue[0];
      QueuedPop(queue, searched, expanded, dist, d);
      hide Queued, Expanded, Near;
      queue := queue[1..];
      if target(vertex) {
        end := vertex;
        forall p | Leads(graph, target, s, p)
          ensures dist[end] < |p|
        {
          NotNearer(graph, target, p, expanded, dist, dist[end]);
        }
        break;
      }
      ghost var searched0, expanded0, dist0 := searched, expanded, dist;
      d, expanded := dist[vertex], expanded + {vertex};
      queue, searched, back, dist := Enqueue(graph, vertex, queue, searched, back, s, expanded, dist);
      Shrunk(graph.Keys, searched0, searched);
      ExpandedMore(graph, target, expanded0, dist0, dist, vertex, d);
    }
    if end != s {
      path := WalkBack(graph, target, s, end, searched, back, dist);
      assert Leads(graph, target, s, path);
      return true, path;
    }
    if !target(s) {
      AllExpanded(graph, target, s, searched, back, expanded, dist, d);
      hide BackTree, Queued, Expanded;
      forall p | IsPath(graph, p) && p[0] == s
        ensures !target(p[|p| - 1])
      {
        NoWayOut(graph, target, p, expanded);
      }
    }
    return false, [];
  }

  /** On every graph, the two searches disagree only when the start is a target. */
  method SearchesAgree<Node(!new)>(graph: Graph<Node>, target: Node -> bool, s: Node) returns (bfs: bool, dfs: bool)
    requires Closed(graph) && s in graph
    ensures bfs <==> dfs && !target(s)
    ensures target(s) ==> dfs
  {
    var p, q;
    bfs, p := BfsPath(graph, target, s);
    dfs, q := DfsPath(graph, target, s);
    assert IsPath(graph, [s]);
    assert target(s) ==> Leads(graph, target, s, [s]);
  }
}
