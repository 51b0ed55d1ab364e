/** `find_connection`: the shortest chain of co-authorships between two
    authors of a loaded graph. The query reports instead of printing, and the
    shortest path is found by a breadth-first search that records, for every
    author it reaches, the author it was reached from. */
module PathFinder {
  import opened Graphs

  /** What the query reports: a name missing from the graph, two authors
      with no chain between them, or one shortest chain. */
  datatype Connection = NotFound(author: string) | NoPath | Path(authors: seq<string>)
  {
    /** "Degrees of separation": the number of co-authorship hops. */
    function Degrees(): int
      requires Path?
    {
      |authors| - 1
    }
  }

  /** `p` walks from `s` to `t` along edges of `g`. */
  ghost predicate IsPath(g: Graph, p: seq<string>, s: string, t: string)
  {
    && |p| > 0 && p[0] == s && p[|p| - 1] == t
    && (forall i :: 0 <= i < |p| ==> p[i] in g)
    && (forall i :: 0 < i < |p| ==> p[i] in g[p[i - 1]])
  }

  /** `p` is a path from `s` to `t` and no path between them is shorter. */
  ghost predicate IsShortestPath(g: Graph, p: seq<string>, s: string, t: string)
  {
    IsPath(g, p, s, t) && forall q :: IsPath(g, q, s, t) ==> |p| <= |q|
  }

  /** The search state after `k` rounds: `dist` (ghost) is each reached
      author's round, `pred` the author it was reached from. */
  ghost predicate Searched(g: Graph, s: string, k: nat, visited: set<string>, frontier: set<string>,
                           pred: map<string, string>, dist: map<string, nat>)
  {
    && visited <= g.Keys
    && s in visited
    && dist.Keys == visited
    && dist[s] == 0
    && pred.Keys == visited - {s}
    && frontier <= visited
    && (forall v :: v in visited ==> dist[v] <= k && (v in frontier <==> dist[v] == k))
    && (forall v :: v in pred ==> pred[v] in visited && v in g[pred[v]] && dist[v] == dist[pred[v]] + 1)
    // every author reached before the last round has had all its
    // co-authors reached, one round later at most
    && (forall u, w {:trigger Adjacent(g, u, w)} :: Adjacent(g, u, w) && u in visited && dist[u] < k ==>
          w in visited && dist[w] <= dist[u] + 1)
  }

  /** Every author within `k` hops of `s` has been reached, no later than
      its hop count. */
  lemma {:induction false} ReachedInTime(g: Graph, s: string, k: nat, visited: set<string>, frontier: set<string>,
                                         pred: map<string, string>, dist: map<string, nat>, q: seq<string>, t: string)
    requires Searched(g, s, k, visited, frontier, pred, dist)
    requires IsPath(g, q, s, t) && |q| - 1 <= k
    ensures t in visited && dist[t] <= |q| - 1
    decreases |q|
  {
    if |q| > 1 {
      var q' := q[..|q| - 1];
      ReachedInTime(g, s, k, visited, frontier, pred, dist, q', q'[|q'| - 1]);
      assert Adjacent(g, q[|q| - 2], q[|q| - 1]);
    }
  }

  /** Once nothing is left to expand, no path leaves the reached authors. */
  lemma {:induction false} Enclosed(g: Graph, s: string, k: nat, visited: set<string>,
                                    pred: map<string, string>, dist: map<string, nat>, q: seq<string>, t: string)
    requires Searched(g, s, k, visited, {}, pred, dist)
    requires IsPath(g, q, s, t)
    ensures t in visited
    decreases |q|
  {
    if |q| > 1 {
      var q' := q[..|q| - 1];
      Enclosed(g, s, k, visited, pred, dist, q', q'[|q'| - 1]);
      assert Adjacent(g, q[|q| - 2], q[|q| - 1]);
    }
  }

  /** One round of the search: every unreached co-author of the current
      frontier is reached, remembering a frontier author it was reached from. */
  method NextRound(g: Graph, s: string, k: nat, visited: set<string>, frontier: set<string>,
                   pred: map<string, string>, ghost dist: map<string, nat>)
    returns (visited': set<string>, frontier': set<string>, pred': map<string, string>, ghost dist': map<string, nat>)
    requires Closed(g)
    requires Searched(g, s, k, visited, frontier, pred, dist)
    ensures Searched(g, s, k + 1, visited', frontier', pred', dist')
    ensures visited' == visited + frontier' && visited !! frontier'
  {
    var next := NewlyReached(g, frontier, visited);
    pred' := RecordPreds(g, frontier, next, pred);
    visited' := visited + next;
    frontier' := next;
    dist' := AtRound(dist, next, k + 1);
    RoundSearched(g, s, k, visited, frontier, pred, dist, next, pred', dist');
  }

  /** The co-authors of frontier authors that have not been reached yet. */
  method NewlyReached(g: Graph, frontier: set<string>, visited: set<string>) returns (next: set<string>)
    requires Closed(g) && frontier <= g.Keys
    ensures forall w :: w in next ==> w !in visited && w in g && exists u :: u in frontier && w in g[u]
    ensures forall u, w {:trigger Adjacent(g, u, w)} :: Adjacent(g, u, w) && u in frontier && w !in visited ==> w in next
  {
    next := set u, w | u in frontier && w in g[u] && w !in visited :: w;
  }

  /** `dist` extended with round `k` for every author of `next`. */
  ghost function AtRound(dist: map<string, nat>, next: set<string>, k: nat): (dist': map<string, nat>)
    requires dist.Keys !! next
    ensures dist'.Keys == dist.Keys + next
    ensures forall v :: v in dist ==> dist'[v] == dist[v]
    ensures forall v :: v in next ==> dist'[v] == k
  {
    dist + map w | w in next :: k
  }

  /** Records, for every newly reached author, one frontier author it is a
      co-author of; earlier records are kept. */
  method RecordPreds(g: Graph, frontier: set<string>, next: set<string>, pred: map<string, string>)
    returns (pred': map<string, string>)
    requires frontier <= g.Keys
    requires forall w :: w in next ==> exists u :: u in frontier && w in g[u]
    ensures pred'.Keys == pred.Keys + next
    ensures forall v :: v in pred && v !in next ==> pred'[v] == pred[v]
    ensures forall v :: v in next ==> pred'[v] in frontier && v in g[pred'[v]]
  {
    var todo := next;
    pred' := pred;
    while todo != {}
      invariant todo <= next
      invariant pred'.Keys == pred.Keys + (next - todo)
      invariant forall v :: v in pred && v !in next ==> pred'[v] == pred[v]
      invariant forall v :: v in next - todo ==> pred'[v] in frontier && v in g[pred'[v]]
      decreases todo
    {
      var w :| w in todo;
      var u :| u in frontier && w in g[u];
      pred' := pred'[w := u];
      todo := todo - {w};
    }
  }

  /** The facts one round establishes, gathered into the next round's
      search state. */
  lemma RoundSearched(g: Graph, s: string, k: nat, visited: set<string>, frontier: set<string>,
                      pred: map<string, string>, dist: map<string, nat>,
                      next: set<string>, pred': map<string, string>, dist': map<string, nat>)
    requires Closed(g)
    requires Searched(g, s, k, visited, frontier, pred, dist)
    requires forall w :: w in next ==> w !in visited && w in g
    requires forall u, w {:trigger Adjacent(g, u, w)} :: Adjacent(g, u, w) && u in frontier && w !in visited ==> w in next
    requires pred'.Keys == pred.Keys + next
    requires forall v :: v in pred ==> pred'[v] == pred[v]
    requires forall v :: v in next ==> pred'[v] in frontier && v in g[pred'[v]]
    requires dist'.Keys == visited + next
    requires forall v :: v in visited ==> dist'[v] == dist[v]
    requires forall v :: v in next ==> dist'[v] == k + 1
    ensures Searched(g, s, k + 1, visited + next, next, pred', dist')
  {
    RoundPred(g, k, visited, frontier, pred, dist, next, pred', dist');
    RoundClosure(g, k, visited, frontier, dist, next, dist');
  }

  lemma RoundPred(g: Graph, k: nat, visited: set<string>, frontier: set<string>,
                  pred: map<string, string>, dist: map<string, nat>,
                  next: set<string>, pred': map<string, string>, dist': map<string, nat>)
    requires visited + next <= g.Keys
    requires frontier <= visited && visited !! next
    requires forall v :: v in visited ==> v in dist && (v in frontier ==> dist[v] == k)
    requires pred.Keys <= visited
    requires forall v :: v in pred ==> pred[v] in visited && v in g[pred[v]] && dist[v] == dist[pred[v]] + 1
    requires pred'.Keys == pred.Keys + next
    requires forall v :: v in pred ==> pred'[v] == pred[v]
    requires forall v :: v in next ==> pred'[v] in frontier && v in g[pred'[v]]
    requires dist'.Keys == visited + next
    requires forall v :: v in visited ==> dist'[v] == dist[v]
    requires forall v :: v in next ==> dist'[v] == k + 1
    ensures forall v :: v in pred' ==> pred'[v] in visited + next && v in g[pred'[v]] && dist'[v] == dist'[pred'[v]] + 1
  {
  }

  lemma RoundClosure(g: Graph, k: nat, visited: set<string>, frontier: set<string>,
                     dist: map<string, nat>, next: set<string>, dist': map<string, nat>)
    requires visited + next <= g.Keys
    requires frontier <= visited && visited !! next
    requires forall v :: v in visited ==> v in dist && dist[v] <= k && (v in frontier <==> dist[v] == k)
    requires forall u, w {:trigger Adjacent(g, u, w)} :: Adjacent(g, u, w) && u in visited && dist[u] < k ==>
               w in visited && dist[w] <= dist[u] + 1
    requires forall u, w {:trigger Adjacent(g, u, w)} :: Adjacent(g, u, w) && u in frontier && w !in visited ==> w in next
    requires dist'.Keys == visited + next
    requires forall v :: v in visited ==> dist'[v] == dist[v]
    requires forall v :: v in next ==> dist'[v] == k + 1
    ensures forall u, w {:trigger Adjacent(g, u, w)} :: Adjacent(g, u, w) && u in visited + next && dist'[u] < k + 1 ==>
              w in visited + next && dist'[w] <= dist'[u] + 1
  {
  }

  /** Follows the recorded predecessors back from `t` to `s`. */
  method Walk(g: Graph, s: string, t: string, k: nat, visited: set<string>, frontier: set<string>,
              pred: map<string, string>, ghost dist: map<string, nat>) returns (p: seq<string>)
    requires Searched(g, s, k, visited, frontier, pred, dist)
    requires t in visited
    ensures IsPath(g, p, s, t) && |p| - 1 == dist[t]
  {
    p := [t];
    var cur := t;
    while cur != s
      invariant cur in visited
      invariant IsPath(g, p, cur, t)
      invariant |p| - 1 + dist[cur] == dist[t]
      decreases dist[cur]
    {
      cur := pred[cur];
      p := [cur] + p;
    }
  }

  /** Unweighted breadth-first search from `s`, one round per hop count,
      stopping as soon as `t` is reached or nothing new can be reached. */
  method Search(g: Graph, s: string, t: string) returns (r: Connection)
    requires Closed(g)
    requires s in g && t in g
    ensures r.Path? || r.NoPath?
    ensures r.Path? ==> IsShortestPath(g, r.authors, s, t)
    ensures r.NoPath? <==> forall q :: !IsPath(g, q, s, t)
  {
    var visited := {s};
    var frontier := {s};
    var pred: map<string, string> := map[];
    ghost var dist: map<string, nat> := map[s := 0];
    var k: nat := 0;
    while t !in visited && frontier != {}
      invariant Searched(g, s, k, visited, frontier, pred, dist)
      decreases |g.Keys - visited|, |frontier|
    {
      ghost var before := visited;
      ghost var width := |frontier|;
      visited, frontier, pred, dist := NextRound(g, s, k, visited, frontier, pred, dist);
      k := k + 1;
      if frontier != {} {
        var w :| w in frontier;
        assert g.Keys - visited < g.Keys - before by {
          assert w in g.Keys - before;
        }
      } else {
        assert |frontier| < width;
      }
    }
    if t !in visited {
      forall q | IsPath(g, q, s, t)
        ensures false
      {
        Enclosed(g, s, k, visited, pred, dist, q, t);
      }
      return NoPath;
    }
    var p := Walk(g, s, t, k, visited, frontier, pred, dist);
    forall q | IsPath(g, q, s, t)
      ensures |p| <= |q|
    {
      if |q| - 1 < dist[t] {
        ReachedInTime(g, s, k, visited, frontier, pred, dist, q, t);
      }
    }
    return Path(p);
  }

  /** `find_connection`: `author1` is looked up first, then `author2`; if
      both are nodes the outcome is a shortest path or "no connection". */
  method FindConnection(g: Graph, author1: string, author2: string) returns (r: Connection)
    requires Closed(g)
    ensures author1 !in g ==> r == NotFound(author1)
    ensures author1 in g && author2 !in g ==> r == NotFound(author2)
    ensures author1 in g && author2 in g ==> r.Path? || r.NoPath?
    ensures r.Path? ==> IsShortestPath(g, r.authors, author1, author2)
    ensures r.NoPath? <==> author1 in g && author2 in g && forall q :: !IsPath(g, q, author1, author2)
    ensures author1 in g && author1 == author2 ==> r == Path([author1]) && r.Degrees() == 0
  {
    if author1 !in g {
      return NotFound(author1);
    }
    if author2 !in g {
      return NotFound(author2);
    }
    r := Search(g, author1, author2);
    if author1 == author2 {
      assert IsPath(g, [author1], author1, author2);
      var p := r.authors;
      assert |p| == 1 && p[0] == author1;
      assert p == [author1];
    }
  }
}
