/** `build_collaboration_network`: a breadth-first crawl from a seed author
    through the publication search, bounded by a maximum depth. The search
    is a parameter: for an author name it yields that author's publications,
    each as the list of its author names. */
module Crawler {
  import opened Graphs

  /** One search result, reduced to what `get_coauthors` extracts from it:
      its author names, unmodified and in order. */
  type Publication = seq<string>

  /** The publication search, one call per author name. */
  type Source = string -> seq<Publication>

  /** A queue record: an author and its depth from the seed. */
  type Entry = (string, int)

  /** The author names of a search result list, publication by publication,
      as the nested loops over results and co-authors meet them. */
  function Names(pubs: seq<Publication>): seq<string>
    decreases |pubs|
  {
    if pubs == [] then [] else pubs[0] + Names(pubs[1..])
  }

  /** The names are exactly the authors of some publication. */
  lemma {:induction false} NamesMembers(pubs: seq<Publication>)
    ensures forall c :: c in Names(pubs) <==> exists i :: 0 <= i < |pubs| && c in pubs[i]
    decreases |pubs|
  {
    if pubs != [] {
      NamesMembers(pubs[1..]);
      assert forall i :: 0 < i < |pubs| ==> pubs[i] == pubs[1..][i - 1];
    }
  }

  /** The authors of a list of records. */
  function Authors(entries: seq<Entry>): set<string>
  {
    set e | e in entries :: e.0
  }

  /** The trace of search calls: the authors of the logged records whose
      depth was below the bound, in processing order. */
  function Queries(log: seq<Entry>, maxDepth: int): (r: seq<string>)
    ensures forall x :: x in r <==> exists i :: 0 <= i < |log| && log[i].0 == x && log[i].1 < maxDepth
    decreases |log|
  {
    if log == [] then []
    else
      var last := log[|log| - 1];
      var r := Queries(log[..|log| - 1], maxDepth) + (if last.1 < maxDepth then [last.0] else []);
      assert forall i :: 0 <= i < |log| - 1 ==> log[..|log| - 1][i] == log[i];
      r
  }

  /** For each co-author other than the current author, `G.add_edge`. */
  function AddCoauthorEdges(g: Graph, cur: string, names: seq<string>): (r: Graph)
    requires cur in g
    ensures r.Keys == g.Keys + (set c | c in names && c != cur)
    ensures forall x, y :: Adjacent(r, x, y) <==>
              Adjacent(g, x, y) || (x == cur && y != cur && y in names) || (y == cur && x != cur && x in names)
    decreases |names|
  {
    if names == [] then g
    else
      var c := names[0];
      var g1 := if c != cur then AddEdge(g, cur, c) else g;
      var r := AddCoauthorEdges(g1, cur, names[1..]);
      assert forall x :: x in names <==> x == c || x in names[1..];
      r
  }

  /** The records a processed author enqueues: each co-author other than
      itself that has not been processed yet, one level deeper, in order. */
  function Followups(cur: string, depth: int, names: seq<string>, processed: set<string>): (r: seq<Entry>)
    ensures forall i :: 0 <= i < |r| ==> r[i].1 == depth + 1 && r[i].0 in names && r[i].0 != cur && r[i].0 !in processed
    ensures forall c :: c in names && c != cur && c !in processed ==> (c, depth + 1) in r
    decreases |names|
  {
    if names == [] then []
    else
      var rest := Followups(cur, depth, names[1..], processed);
      var r := (if names[0] != cur && names[0] !in processed then [(names[0], depth + 1)] else []) + rest;
      assert forall x :: x in names <==> x == names[0] || x in names[1..];
      r
  }

  /** `AddCoauthorEdges` keeps the graph undirected and free of self-loops. */
  lemma AddCoauthorEdgesShape(g: Graph, cur: string, names: seq<string>)
    requires cur in g
    requires Wf(g) && Loopless(g)
    ensures Wf(AddCoauthorEdges(g, cur, names)) && Loopless(AddCoauthorEdges(g, cur, names))
  {
    var r := AddCoauthorEdges(g, cur, names);
    EdgeRuleShape(g, r, cur, names);
  }

  /** Any graph whose nodes and edges extend `g` by the co-author rule is
      undirected and loop-free when `g` is. */
  lemma EdgeRuleShape(g: Graph, r: Graph, cur: string, names: seq<string>)
    requires cur in g
    requires Wf(g) && Loopless(g)
    requires r.Keys == g.Keys + (set c | c in names && c != cur)
    requires forall x, y :: Adjacent(r, x, y) <==>
               Adjacent(g, x, y) || (x == cur && y != cur && y in names) || (y == cur && x != cur && x in names)
    ensures Wf(r) && Loopless(r)
  {
    forall x, y | x in r && y in r[x]
      ensures y in r && Adjacent(r, y, x)
    {
      assert Adjacent(r, x, y);
    }
    forall x | x in r
      ensures x !in r[x]
    {
      assert !Adjacent(r, x, x);
    }
  }

  /** Authors within `k` search hops of the seed, where `c` is one hop from
      `a` when `a`'s search names `c`: the set the crawl can reach by depth
      `k`. The relation is directed, so this can exceed an author's distance
      in the built graph: once `D` is searched, a paper of `D` naming `A`
      makes them neighbours even when `A`'s own search reaches `D` only
      through others. */
  ghost function Reach(src: Source, seed: string, k: nat): set<string>
    decreases k
  {
    if k == 0 then {seed}
    else Reach(src, seed, k - 1) + Expanded(src, Reach(src, seed, k - 1))
  }

  /** Every co-author the search names for some author of `authors`. */
  ghost function Expanded(src: Source, authors: set<string>): set<string>
    decreases |authors|
  {
    if authors == {} then {}
    else
      var a :| a in authors;
      Expanded(src, authors - {a}) + Elements(Names(src(a)))
  }

  function Elements(s: seq<string>): set<string>
  {
    set x | x in s
  }

  lemma {:induction false} ExpandedHas(src: Source, authors: set<string>, a: string, c: string)
    requires a in authors && c in Names(src(a))
    ensures c in Expanded(src, authors)
    decreases |authors|
  {
    var b :| b in authors && Expanded(src, authors) == Expanded(src, authors - {b}) + Elements(Names(src(b)));
    if b != a {
      ExpandedHas(src, authors - {b}, a, c);
    } else {
      assert c in Elements(Names(src(b)));
    }
  }

  lemma {:induction false} ReachMono(src: Source, seed: string, j: nat, k: nat)
    requires j <= k
    ensures Reach(src, seed, j) <= Reach(src, seed, k)
    decreases k
  {
    if j < k {
      ReachMono(src, seed, j, k - 1);
      ReachGrows(src, seed, k - 1);
    }
  }

  lemma ReachGrows(src: Source, seed: string, k: nat)
    ensures Reach(src, seed, k) <= Reach(src, seed, k + 1)
  {
  }

  lemma ReachStep(src: Source, seed: string, k: nat, a: string, c: string)
    requires a in Reach(src, seed, k)
    requires c in Names(src(a))
    ensures c in Reach(src, seed, k + 1)
  {
    ExpandedHas(src, Reach(src, seed, k), a, c);
  }

  /** The depth bound as the crawl sees it: nothing deeper than `max_depth`
      is ever enqueued, and the seed sits at depth 0 whatever the bound. */
  function Bound(maxDepth: int): nat
  {
    if maxDepth > 0 then maxDepth else 0
  }

  /** The state of `build_collaboration_network` between two iterations:
      the graph so far, `processed_authors`, the FIFO queue, the log of
      processed records (the "Processing author" lines) in order, and the
      authors passed to the search so far, in order. */
  datatype Crawl = Crawl(graph: Graph, processed: set<string>, queue: seq<Entry>, log: seq<Entry>, queries: seq<string>)

  /** The first state: an empty graph and the seed at depth 0. */
  function Start(seed: string): Crawl
  {
    Crawl(map[], {}, [(seed, 0)], [], [])
  }

  /** The front record of the queue is searched: its author is new and its
      depth is below the bound. */
  predicate Searches(maxDepth: int, st: Crawl)
    requires st.queue != []
  {
    st.queue[0].0 !in st.processed && st.queue[0].1 < maxDepth
  }

  /** One iteration of the `while queue` loop. A processed author is
      skipped; otherwise it is marked processed and becomes a node, and only
      below the depth bound is it searched, connected to every co-author
      other than itself, and followed by its unprocessed co-authors. */
  function Step(src: Source, maxDepth: int, st: Crawl): (r: Crawl)
    requires st.queue != []
    ensures r.processed == st.processed + {st.queue[0].0}
    ensures r.log == if st.queue[0].0 in st.processed then st.log else st.log + [st.queue[0]]
    ensures r.queries == if Searches(maxDepth, st) then st.queries + [st.queue[0].0] else st.queries
    ensures |st.queue| - 1 <= |r.queue| && r.queue[..|st.queue| - 1] == st.queue[1..]
  {
    var (cur, depth) := st.queue[0];
    var rest := st.queue[1..];
    if cur in st.processed then st.(queue := rest)
    else
      var processed := st.processed + {cur};
      var g := AddNode(st.graph, cur);
      var log := st.log + [(cur, depth)];
      if depth >= maxDepth then Crawl(g, processed, rest, log, st.queries)
      else
        var names := Names(src(cur));
        Crawl(AddCoauthorEdges(g, cur, names), processed, rest + Followups(cur, depth, names, processed), log,
              st.queries + [cur])
  }

  /** What a step appends to the queue: a searched author queues exactly
      its unprocessed co-authors other than itself, one level deeper; any
      other step appends nothing. */
  lemma StepQueueEffect(src: Source, maxDepth: int, st: Crawl)
    requires st.queue != []
    ensures var r := Step(src, maxDepth, st);
      forall i :: |st.queue| - 1 <= i < |r.queue| ==>
        Searches(maxDepth, st) && r.queue[i].1 == st.queue[0].1 + 1 &&
        r.queue[i].0 in Names(src(st.queue[0].0)) && r.queue[i].0 != st.queue[0].0 && r.queue[i].0 !in st.processed
    ensures var r := Step(src, maxDepth, st);
      Searches(maxDepth, st) ==>
        forall c :: c in Names(src(st.queue[0].0)) && c != st.queue[0].0 && c !in st.processed ==>
          (c, st.queue[0].1 + 1) in r.queue[|st.queue| - 1..]
  {
    var (cur, depth) := st.queue[0];
    var r := Step(src, maxDepth, st);
    if Searches(maxDepth, st) {
      var f := Followups(cur, depth, Names(src(cur)), st.processed + {cur});
      assert r.queue == st.queue[1..] + f;
      assert r.queue[|st.queue| - 1..] == f;
    } else {
      assert r.queue == st.queue[1..];
    }
  }

  /** What a step does to the graph: an already processed author changes
      nothing, a new one becomes a node, and only a searched one gains an
      edge to every co-author other than itself. */
  lemma StepGraphEffect(src: Source, maxDepth: int, st: Crawl)
    requires st.queue != []
    ensures var r := Step(src, maxDepth, st);
      r.graph.Keys == st.graph.Keys + (if st.queue[0].0 in st.processed then {} else {st.queue[0].0}) +
        (if Searches(maxDepth, st) then set c | c in Names(src(st.queue[0].0)) && c != st.queue[0].0 else {})
    ensures var r := Step(src, maxDepth, st);
      forall x, y :: Adjacent(r.graph, x, y) <==>
        Adjacent(st.graph, x, y) ||
        (Searches(maxDepth, st) &&
         ((x == st.queue[0].0 && y != x && y in Names(src(x))) || (y == st.queue[0].0 && x != y && x in Names(src(y)))))
  {
    var cur := st.queue[0].0;
    var r := Step(src, maxDepth, st);
    if cur in st.processed {
      assert r.graph == st.graph;
    } else if !Searches(maxDepth, st) {
      assert r.graph == AddNode(st.graph, cur);
    } else {
      assert r.graph == AddCoauthorEdges(AddNode(st.graph, cur), cur, Names(src(cur)));
    }
  }

  /** `e` was enqueued while processing a record of `prior` one level
      shallower, below the depth bound, that names `e`'s author as a
      co-author other than itself. */
  ghost predicate Parent(src: Source, maxDepth: int, prior: seq<Entry>, e: Entry)
  {
    exists b :: (b, e.1 - 1) in prior && e.1 - 1 < maxDepth && e.0 in Names(src(b)) && e.0 != b
  }

  /** A record whose depth is within the bound and whose author is within
      that many search hops of the seed. */
  ghost predicate InRange(src: Source, seed: string, maxDepth: int, e: Entry)
  {
    0 <= e.1 <= Bound(maxDepth) && e.0 in Reach(src, seed, e.1)
  }

  /** `x` was searched and `y` is one of its co-authors. */
  ghost predicate Expands(src: Source, maxDepth: int, log: seq<Entry>, x: string, y: string)
  {
    x in Queries(log, maxDepth) && y in Names(src(x))
  }

  ghost predicate Started(seed: string, st: Crawl)
  {
    if st.log == [] then st.queue == [(seed, 0)] else st.log[0] == (seed, 0)
  }

  /** No author is logged twice. */
  ghost predicate DistinctAuthors(log: seq<Entry>)
  {
    forall i, j :: 0 <= i < j < |log| ==> log[i].0 != log[j].0
  }

  /** Depths never decrease along a sequence of records. */
  ghost predicate Ascending(log: seq<Entry>)
  {
    forall i, j :: 0 <= i < j < |log| ==> log[i].1 <= log[j].1
  }

  ghost predicate AllInRange(src: Source, seed: string, maxDepth: int, es: seq<Entry>)
  {
    forall i :: 0 <= i < |es| ==> InRange(src, seed, maxDepth, es[i])
  }

  /** Every logged record after the first was discovered from an earlier one. */
  ghost predicate LogDiscovered(src: Source, maxDepth: int, log: seq<Entry>)
  {
    forall i :: 0 < i < |log| ==> log[i].1 > 0 && Parent(src, maxDepth, log[..i], log[i])
  }

  /** Once the seed is processed, every queued record was discovered from the log. */
  ghost predicate QueueDiscovered(src: Source, maxDepth: int, log: seq<Entry>, queue: seq<Entry>)
  {
    log != [] ==> forall i :: 0 <= i < |queue| ==> queue[i].1 > 0 && Parent(src, maxDepth, log, queue[i])
  }

  /** The queue is sorted by depth and spans at most two consecutive levels. */
  ghost predicate Layered(queue: seq<Entry>)
  {
    forall i, j :: 0 <= i <= j < |queue| ==> queue[i].1 <= queue[j].1 <= queue[i].1 + 1
  }

  /** The queue holds nothing shallower than the last processed record. */
  ghost predicate Behind(log: seq<Entry>, queue: seq<Entry>)
  {
    log != [] && queue != [] ==> log[|log| - 1].1 <= queue[0].1
  }

  /** The log: distinct authors, depths in order, within range, and every
      record after the first discovered from an earlier one. */
  ghost predicate LogOk(src: Source, seed: string, maxDepth: int, log: seq<Entry>)
  {
    DistinctAuthors(log) && Ascending(log) &&
    AllInRange(src, seed, maxDepth, log) && LogDiscovered(src, maxDepth, log)
  }

  /** The queue: within range, discovered from the log, layered, and none
      shallower than the last processed record. */
  ghost predicate QueueOk(src: Source, seed: string, maxDepth: int, log: seq<Entry>, queue: seq<Entry>)
  {
    AllInRange(src, seed, maxDepth, queue) && QueueDiscovered(src, maxDepth, log, queue) &&
    Layered(queue) && Behind(log, queue)
  }

  /** The graph: undirected, loop-free, a node for every processed author
      and only for processed or queued ones, and an edge exactly between a
      searched author and each of its co-authors other than itself. */
  ghost predicate GraphOk(src: Source, maxDepth: int, st: Crawl)
  {
    Wf(st.graph) && Loopless(st.graph) &&
    st.processed <= st.graph.Keys &&
    (forall x :: x in st.graph ==> x in st.processed || x in Authors(st.queue)) &&
    EdgesFromLog(src, maxDepth, st.graph, st.log)
  }

  /** The loop invariant of the crawl. */
  ghost predicate Inv(src: Source, seed: string, maxDepth: int, st: Crawl)
  {
    Started(seed, st) && st.processed == Authors(st.log) &&
    st.queries == Queries(st.log, maxDepth) &&
    LogOk(src, seed, maxDepth, st.log) &&
    QueueOk(src, seed, maxDepth, st.log, st.queue) &&
    Covered(src, maxDepth, st.log, st.queue) &&
    GraphOk(src, maxDepth, st)
  }

  lemma AuthorsAppend(a: seq<Entry>, b: seq<Entry>)
    ensures Authors(a + b) == Authors(a) + Authors(b)
  {
    assert forall e :: e in a + b <==> e in a || e in b;
  }

  lemma AuthorsPop(q: seq<Entry>)
    requires q != []
    ensures Authors(q) == {q[0].0} + Authors(q[1..])
  {
    assert q == [q[0]] + q[1..];
    AuthorsAppend([q[0]], q[1..]);
  }

  lemma QueriesAppend(log: seq<Entry>, e: Entry, maxDepth: int)
    ensures Queries(log + [e], maxDepth) == Queries(log, maxDepth) + (if e.1 < maxDepth then [e.0] else [])
  {
    assert (log + [e])[..|log|] == log;
  }

  lemma ParentGrows(src: Source, maxDepth: int, prior: seq<Entry>, more: seq<Entry>, e: Entry)
    requires Parent(src, maxDepth, prior, e)
    ensures Parent(src, maxDepth, prior + more, e)
  {
    var b :| (b, e.1 - 1) in prior && e.1 - 1 < maxDepth && e.0 in Names(src(b)) && e.0 != b;
    assert (b, e.1 - 1) in prior + more;
  }

  /** What a step does to the processed set, the log and the queue. */
  lemma StepFields(src: Source, maxDepth: int, st: Crawl)
    requires st.queue != []
    ensures
      var (cur, depth) := st.queue[0];
      var st' := Step(src, maxDepth, st);
      st'.processed == st.processed + {cur} &&
      st'.log == (if cur in st.processed then st.log else st.log + [(cur, depth)]) &&
      st'.queries == (if cur in st.processed || depth >= maxDepth then st.queries else st.queries + [cur]) &&
      st'.queue == st.queue[1..] +
        (if cur in st.processed || depth >= maxDepth then []
         else Followups(cur, depth, Names(src(cur)), st.processed + {cur}))
  {
  }

  /** Appending the front of the queue to the log keeps the log invariant,
      provided its author is new. */
  lemma LogExtend(src: Source, seed: string, maxDepth: int, log: seq<Entry>, queue: seq<Entry>)
    requires queue != [] && queue[0].0 !in Authors(log)
    requires log == [] ==> queue[0] == (seed, 0)
    requires LogOk(src, seed, maxDepth, log)
    requires QueueOk(src, seed, maxDepth, log, queue)
    ensures LogOk(src, seed, maxDepth, log + [queue[0]])
  {
    LogExtendDistinct(log, queue[0]);
    LogExtendAscending(log, queue);
    assert InRange(src, seed, maxDepth, queue[0]);
    RangeAppend(src, seed, maxDepth, log, queue[0]);
    LogExtendDiscovered(src, maxDepth, log, queue);
  }

  lemma RangeAppend(src: Source, seed: string, maxDepth: int, es: seq<Entry>, e: Entry)
    requires AllInRange(src, seed, maxDepth, es) && InRange(src, seed, maxDepth, e)
    ensures AllInRange(src, seed, maxDepth, es + [e])
  {
    assert forall i :: 0 <= i < |es| + 1 ==> (es + [e])[i] == if i < |es| then es[i] else e;
  }

  lemma LogExtendDistinct(log: seq<Entry>, e: Entry)
    requires DistinctAuthors(log) && e.0 !in Authors(log)
    ensures DistinctAuthors(log + [e])
  {
    forall i | 0 <= i < |log|
      ensures log[i].0 != e.0
    {
      assert log[i] in log;
    }
  }

  lemma LogExtendAscending(log: seq<Entry>, queue: seq<Entry>)
    requires queue != []
    requires Ascending(log) && Behind(log, queue)
    ensures Ascending(log + [queue[0]])
  {
  }

  lemma LogExtendDiscovered(src: Source, maxDepth: int, log: seq<Entry>, queue: seq<Entry>)
    requires queue != []
    requires LogDiscovered(src, maxDepth, log) && QueueDiscovered(src, maxDepth, log, queue)
    ensures LogDiscovered(src, maxDepth, log + [queue[0]])
  {
    var log' := log + [queue[0]];
    forall i | 0 < i < |log'|
      ensures log'[i].1 > 0 && Parent(src, maxDepth, log'[..i], log'[i])
    {
      if i < |log| {
        assert log'[..i] == log[..i];
      } else {
        assert log'[..i] == log;
      }
    }
  }

  /** Dropping the front of the queue keeps the queue invariant. */
  lemma QueuePop(src: Source, seed: string, maxDepth: int, log: seq<Entry>, queue: seq<Entry>)
    requires queue != []
    requires QueueOk(src, seed, maxDepth, log, queue)
    ensures QueueOk(src, seed, maxDepth, log, queue[1..])
  {
    assert forall i :: 0 <= i < |queue| - 1 ==> queue[1..][i] == queue[i + 1];
  }

  /** Processing the front of the queue without searching it keeps the
      queue invariant against the extended log. */
  lemma QueueLeaf(src: Source, seed: string, maxDepth: int, log: seq<Entry>, queue: seq<Entry>)
    requires queue != []
    requires log == [] ==> queue == [(seed, 0)]
    requires QueueOk(src, seed, maxDepth, log, queue)
    ensures QueueOk(src, seed, maxDepth, log + [queue[0]], queue[1..])
  {
    var rest := queue[1..];
    QueuePop(src, seed, maxDepth, log, queue);
    assert forall i :: 0 <= i < |rest| ==> rest[i] == queue[i + 1];
    forall i | 0 <= i < |rest|
      ensures rest[i].1 > 0 && Parent(src, maxDepth, log + [queue[0]], rest[i])
    {
      ParentGrows(src, maxDepth, log, [queue[0]], rest[i]);
    }
  }

  /** Searching the front of the queue and appending its followups, all one
      level deeper and co-authors of it, keeps the queue invariant. */
  lemma QueueExpand(src: Source, seed: string, maxDepth: int, log: seq<Entry>, queue: seq<Entry>, f: seq<Entry>)
    requires queue != [] && queue[0].1 < maxDepth
    requires log == [] ==> queue == [(seed, 0)]
    requires QueueOk(src, seed, maxDepth, log, queue)
    requires forall i :: 0 <= i < |f| ==>
               f[i].1 == queue[0].1 + 1 && f[i].0 in Names(src(queue[0].0)) && f[i].0 != queue[0].0
    ensures QueueOk(src, seed, maxDepth, log + [queue[0]], queue[1..] + f)
  {
    QueueLeaf(src, seed, maxDepth, log, queue);
    assert InRange(src, seed, maxDepth, queue[0]);
    FollowupsOk(src, seed, maxDepth, log, queue[0], f);
    QueueBand(queue);
    QueueAppend(src, seed, maxDepth, log + [queue[0]], queue[1..], f, queue[0].1);
  }

  /** After the front, the queue lies within the front's level and the next. */
  lemma QueueBand(queue: seq<Entry>)
    requires queue != [] && Layered(queue)
    ensures forall i :: 0 <= i < |queue| - 1 ==> queue[0].1 <= queue[1..][i].1 <= queue[0].1 + 1
  {
    assert forall i :: 0 <= i < |queue| - 1 ==> queue[1..][i] == queue[i + 1];
  }

  lemma QueueAppend(src: Source, seed: string, maxDepth: int, log: seq<Entry>, rest: seq<Entry>, f: seq<Entry>, depth: int)
    requires log != [] && log[|log| - 1].1 == depth && depth >= 0
    requires QueueOk(src, seed, maxDepth, log, rest)
    requires forall i :: 0 <= i < |rest| ==> depth <= rest[i].1 <= depth + 1
    requires forall i :: 0 <= i < |f| ==>
               f[i].1 == depth + 1 && InRange(src, seed, maxDepth, f[i]) && Parent(src, maxDepth, log, f[i])
    ensures QueueOk(src, seed, maxDepth, log, rest + f)
  {
    QueueLayers(rest, f, depth);
    var q' := rest + f;
    assert forall i :: 0 <= i < |q'| ==> q'[i] == if i < |rest| then rest[i] else f[i - |rest|];
  }

  lemma FollowupsOk(src: Source, seed: string, maxDepth: int, log: seq<Entry>, e: Entry, f: seq<Entry>)
    requires 0 <= e.1 < maxDepth
    requires InRange(src, seed, maxDepth, e)
    requires forall i :: 0 <= i < |f| ==> f[i].1 == e.1 + 1 && f[i].0 in Names(src(e.0)) && f[i].0 != e.0
    ensures forall i :: 0 <= i < |f| ==>
              InRange(src, seed, maxDepth, f[i]) && f[i].1 > 0 && Parent(src, maxDepth, log + [e], f[i])
  {
    var log' := log + [e];
    assert e in log';
    forall i | 0 <= i < |f|
      ensures InRange(src, seed, maxDepth, f[i]) && f[i].1 > 0 && Parent(src, maxDepth, log', f[i])
    {
      ReachStep(src, seed, e.1, e.0, f[i].0);
      assert (e.0, f[i].1 - 1) in log';
    }
  }

  lemma QueueLayers(rest: seq<Entry>, f: seq<Entry>, depth: int)
    requires Layered(rest)
    requires forall i :: 0 <= i < |rest| ==> depth <= rest[i].1 <= depth + 1
    requires forall i :: 0 <= i < |f| ==> f[i].1 == depth + 1
    ensures Layered(rest + f)
  {
    var q' := rest + f;
    assert forall i :: 0 <= i < |q'| ==> q'[i] == if i < |rest| then rest[i] else f[i - |rest|];
  }

  /** The edges of a graph join exactly each searched author of `log` and
      its co-authors other than itself. */
  ghost predicate EdgesFromLog(src: Source, maxDepth: int, g: Graph, log: seq<Entry>)
  {
    forall x, y :: Adjacent(g, x, y) <==>
      x != y && (Expands(src, maxDepth, log, x, y) || Expands(src, maxDepth, log, y, x))
  }

  /** A step keeps the graph invariant: the new node is the processed
      author, and its new edges are exactly those to its co-authors. */
  lemma StepGraph(src: Source, maxDepth: int, st: Crawl)
    requires st.queue != []
    requires GraphOk(src, maxDepth, st)
    ensures GraphOk(src, maxDepth, Step(src, maxDepth, st))
  {
    var (cur, depth) := st.queue[0];
    if cur in st.processed {
      assert Step(src, maxDepth, st) == st.(queue := st.queue[1..]);
      GraphSkip(src, maxDepth, st);
    } else if depth >= maxDepth {
      assert Step(src, maxDepth, st) ==
        Crawl(AddNode(st.graph, cur), st.processed + {cur}, st.queue[1..], st.log + [st.queue[0]], st.queries);
      GraphLeaf(src, maxDepth, st);
    } else {
      var names := Names(src(cur));
      var f := Followups(cur, depth, names, st.processed + {cur});
      assert Step(src, maxDepth, st) ==
        Crawl(AddCoauthorEdges(AddNode(st.graph, cur), cur, names), st.processed + {cur},
              st.queue[1..] + f, st.log + [st.queue[0]], st.queries + [cur]);
      GraphExpand(src, maxDepth, st, names, f);
    }
  }

  lemma GraphSkip(src: Source, maxDepth: int, st: Crawl)
    requires st.queue != [] && st.queue[0].0 in st.processed
    requires GraphOk(src, maxDepth, st)
    ensures GraphOk(src, maxDepth, st.(queue := st.queue[1..]))
  {
    AuthorsPop(st.queue);
  }

  lemma GraphLeaf(src: Source, maxDepth: int, st: Crawl)
    requires st.queue != [] && st.queue[0].1 >= maxDepth
    requires GraphOk(src, maxDepth, st)
    ensures GraphOk(src, maxDepth,
      Crawl(AddNode(st.graph, st.queue[0].0), st.processed + {st.queue[0].0}, st.queue[1..], st.log + [st.queue[0]],
            st.queries))
  {
    AuthorsPop(st.queue);
    QueriesAppend(st.log, st.queue[0], maxDepth);
  }

  lemma GraphExpand(src: Source, maxDepth: int, st: Crawl, names: seq<string>, f: seq<Entry>)
    requires st.queue != [] && st.queue[0].1 < maxDepth
    requires names == Names(src(st.queue[0].0))
    requires forall c :: c in names && c != st.queue[0].0 && c !in st.processed ==> (c, st.queue[0].1 + 1) in f
    requires GraphOk(src, maxDepth, st)
    ensures GraphOk(src, maxDepth,
      Crawl(AddCoauthorEdges(AddNode(st.graph, st.queue[0].0), st.queue[0].0, names), st.processed + {st.queue[0].0},
            st.queue[1..] + f, st.log + [st.queue[0]], st.queries + [st.queue[0].0]))
  {
    var (cur, depth) := st.queue[0];
    var g1 := AddNode(st.graph, cur);
    var g' := AddCoauthorEdges(g1, cur, names);
    AddCoauthorEdgesShape(g1, cur, names);
    AuthorsPop(st.queue);
    AuthorsAppend(st.queue[1..], f);
    forall c | c in names && c != cur && c !in st.processed
      ensures c in Authors(st.queue[1..] + f)
    {
      assert (c, depth + 1) in f;
    }
    EdgesExpand(src, maxDepth, g1, st.log, st.queue[0]);
  }

  lemma EdgesExpand(src: Source, maxDepth: int, g: Graph, log: seq<Entry>, e: Entry)
    requires e.0 in g && e.1 < maxDepth
    requires EdgesFromLog(src, maxDepth, g, log)
    ensures EdgesFromLog(src, maxDepth, AddCoauthorEdges(g, e.0, Names(src(e.0))), log + [e])
  {
    QueriesAppend(log, e, maxDepth);
    var names := Names(src(e.0));
    forall x, y
      ensures Expands(src, maxDepth, log + [e], x, y) <==> Expands(src, maxDepth, log, x, y) || (x == e.0 && y in names)
    {
    }
  }

  /** Every logged author lies within the reach bound. */
  lemma LoggedInReach(src: Source, seed: string, maxDepth: int, log: seq<Entry>)
    requires AllInRange(src, seed, maxDepth, log)
    ensures Authors(log) <= Reach(src, seed, Bound(maxDepth))
  {
    forall x | x in Authors(log)
      ensures x in Reach(src, seed, Bound(maxDepth))
    {
      var e :| e in log && e.0 == x;
      var i :| 0 <= i < |log| && log[i] == e;
      assert InRange(src, seed, maxDepth, log[i]);
      ReachMono(src, seed, e.1, Bound(maxDepth));
    }
  }

  /** A step either processes an author of the finite reach set for the
      first time or shortens the queue. */
  lemma StepMeasure(src: Source, seed: string, maxDepth: int, st: Crawl)
    requires st.queue != []
    requires st.processed == Authors(st.log)
    requires AllInRange(src, seed, maxDepth, st.log)
    requires AllInRange(src, seed, maxDepth, st.queue)
    ensures st.processed <= Reach(src, seed, Bound(maxDepth))
    ensures
      var r := Reach(src, seed, Bound(maxDepth));
      var st' := Step(src, maxDepth, st);
      |r - st'.processed| < |r - st.processed| ||
      (st'.processed == st.processed && |st'.queue| < |st.queue|)
  {
    var r := Reach(src, seed, Bound(maxDepth));
    var st' := Step(src, maxDepth, st);
    LoggedInReach(src, seed, maxDepth, st.log);
    StepFields(src, maxDepth, st);
    var (cur, depth) := st.queue[0];
    if cur !in st.processed {
      assert InRange(src, seed, maxDepth, st.queue[0]);
      ReachMono(src, seed, depth, Bound(maxDepth));
      assert r - st.processed == (r - st'.processed) + {cur};
    } else {
      assert st'.processed == st.processed;
    }
  }

  /** Processing the front of the queue, or skipping it when its author is
      already processed, keeps the log invariant. */
  lemma LogAdvance(src: Source, seed: string, maxDepth: int, log: seq<Entry>, queue: seq<Entry>)
    requires queue != []
    requires if log == [] then queue == [(seed, 0)] else log[0] == (seed, 0)
    requires LogOk(src, seed, maxDepth, log)
    requires QueueOk(src, seed, maxDepth, log, queue)
    ensures
      var log' := if queue[0].0 in Authors(log) then log else log + [queue[0]];
      log' != [] && log'[0] == (seed, 0) &&
      Authors(log) + {queue[0].0} == Authors(log') &&
      LogOk(src, seed, maxDepth, log')
  {
    if queue[0].0 !in Authors(log) {
      AuthorsAppend(log, [queue[0]]);
      assert Authors([queue[0]]) == {queue[0].0};
      LogExtend(src, seed, maxDepth, log, queue);
    }
  }

  /** A step keeps the log part of the invariant. */
  lemma StepKeepsLog(src: Source, seed: string, maxDepth: int, st: Crawl)
    requires st.queue != []
    requires Started(seed, st) && st.processed == Authors(st.log)
    requires LogOk(src, seed, maxDepth, st.log)
    requires QueueOk(src, seed, maxDepth, st.log, st.queue)
    ensures Started(seed, Step(src, maxDepth, st))
    ensures Step(src, maxDepth, st).processed == Authors(Step(src, maxDepth, st).log)
    ensures LogOk(src, seed, maxDepth, Step(src, maxDepth, st).log)
  {
    StepFields(src, maxDepth, st);
    LogAdvance(src, seed, maxDepth, st.log, st.queue);
  }

  /** A step keeps the queue part of the invariant. */
  lemma StepKeepsQueue(src: Source, seed: string, maxDepth: int, st: Crawl)
    requires st.queue != []
    requires Started(seed, st) && st.processed == Authors(st.log)
    requires QueueOk(src, seed, maxDepth, st.log, st.queue)
    ensures QueueOk(src, seed, maxDepth, Step(src, maxDepth, st).log, Step(src, maxDepth, st).queue)
  {
    var (cur, depth) := st.queue[0];
    StepFields(src, maxDepth, st);
    if cur in st.processed {
      QueuePop(src, seed, maxDepth, st.log, st.queue);
    } else if depth >= maxDepth {
      QueueLeaf(src, seed, maxDepth, st.log, st.queue);
    } else {
      var f := Followups(cur, depth, Names(src(cur)), st.processed + {cur});
      QueueExpand(src, seed, maxDepth, st.log, st.queue, f);
    }
  }

  /** A step passes the front author to the search exactly when it logs it
      below the depth bound. */
  lemma StepKeepsQueries(src: Source, maxDepth: int, st: Crawl)
    requires st.queue != []
    requires st.processed == Authors(st.log) && st.queries == Queries(st.log, maxDepth)
    ensures Step(src, maxDepth, st).queries == Queries(Step(src, maxDepth, st).log, maxDepth)
  {
    StepFields(src, maxDepth, st);
    QueriesAppend(st.log, st.queue[0], maxDepth);
  }

  /** Some record of `log` has author `c` at depth `d` or less. */
  ghost predicate LoggedBy(log: seq<Entry>, c: string, d: int)
  {
    exists j :: 0 <= j < |log| && log[j].0 == c && log[j].1 <= d
  }

  /** If `e` was searched, each of its co-authors other than itself is
      logged at most one level below `e`, or waits in the queue there. */
  ghost predicate Covers(src: Source, maxDepth: int, log: seq<Entry>, queue: seq<Entry>, e: Entry)
  {
    e.1 < maxDepth ==>
      forall c :: c in Names(src(e.0)) && c != e.0 ==> LoggedBy(log, c, e.1 + 1) || (c, e.1 + 1) in queue
  }

  /** No co-author of a searched record is lost: the breadth-first frontier. */
  ghost predicate Covered(src: Source, maxDepth: int, log: seq<Entry>, queue: seq<Entry>)
  {
    forall i :: 0 <= i < |log| ==> Covers(src, maxDepth, log, queue, log[i])
  }

  lemma LoggedByMono(log: seq<Entry>, c: string, d: int, d': int)
    requires LoggedBy(log, c, d) && d <= d'
    ensures LoggedBy(log, c, d')
  {
  }

  lemma LoggedByExtend(log: seq<Entry>, more: seq<Entry>, c: string, d: int)
    requires LoggedBy(log, c, d)
    ensures LoggedBy(log + more, c, d)
  {
    var j :| 0 <= j < |log| && log[j].0 == c && log[j].1 <= d;
    assert (log + more)[j] == log[j];
  }

  /** A processed author was logged no deeper than the front of the queue. */
  lemma LoggedEarly(log: seq<Entry>, queue: seq<Entry>, c: string)
    requires queue != [] && c in Authors(log)
    requires Ascending(log) && Behind(log, queue)
    ensures LoggedBy(log, c, queue[0].1)
  {
    var e :| e in log && e.0 == c;
    var j :| 0 <= j < |log| && log[j] == e;
    assert log[j].1 <= log[|log| - 1].1;
  }

  /** Skipping a front record whose author is already processed keeps the
      frontier: that author is logged at the front's depth or earlier. */
  lemma CoverSkip(src: Source, maxDepth: int, log: seq<Entry>, queue: seq<Entry>)
    requires queue != [] && queue[0].0 in Authors(log)
    requires Ascending(log) && Behind(log, queue)
    requires Covered(src, maxDepth, log, queue)
    ensures Covered(src, maxDepth, log, queue[1..])
  {
    LoggedEarly(log, queue, queue[0].0);
    forall i | 0 <= i < |log|
      ensures Covers(src, maxDepth, log, queue[1..], log[i])
    {
      assert Covers(src, maxDepth, log, queue, log[i]);
      if log[i].1 < maxDepth {
        forall c | c in Names(src(log[i].0)) && c != log[i].0
          ensures LoggedBy(log, c, log[i].1 + 1) || (c, log[i].1 + 1) in queue[1..]
        {
          var d := log[i].1 + 1;
          if (c, d) == queue[0] {
            assert LoggedBy(log, c, d);
          } else if (c, d) in queue {
            var k :| 0 <= k < |queue| && queue[k] == (c, d);
            assert queue[1..][k - 1] == (c, d);
          }
        }
      }
    }
  }

  /** Logging the front record keeps the frontier of every earlier record:
      what the front stood for is now logged. */
  lemma CoverAdvance(src: Source, maxDepth: int, log: seq<Entry>, queue: seq<Entry>, f: seq<Entry>)
    requires queue != []
    requires Covered(src, maxDepth, log, queue)
    ensures forall i :: 0 <= i < |log| ==> Covers(src, maxDepth, log + [queue[0]], queue[1..] + f, log[i])
  {
    var log' := log + [queue[0]];
    var q' := queue[1..] + f;
    forall i | 0 <= i < |log|
      ensures Covers(src, maxDepth, log', q', log[i])
    {
      assert Covers(src, maxDepth, log, queue, log[i]);
      if log[i].1 < maxDepth {
        forall c | c in Names(src(log[i].0)) && c != log[i].0
          ensures LoggedBy(log', c, log[i].1 + 1) || (c, log[i].1 + 1) in q'
        {
          var d := log[i].1 + 1;
          if LoggedBy(log, c, d) {
            LoggedByExtend(log, [queue[0]], c, d);
          } else if (c, d) == queue[0] {
            assert log'[|log|] == (c, d);
          } else {
            var k :| 0 <= k < |queue| && queue[k] == (c, d);
            assert queue[1..][k - 1] == (c, d);
            assert q'[k - 1] == (c, d);
          }
        }
      }
    }
  }

  /** A newly logged record has its frontier: each co-author is processed
      already, hence logged no deeper than it, or among its followups. */
  lemma CoverNew(src: Source, maxDepth: int, log: seq<Entry>, queue: seq<Entry>, f: seq<Entry>)
    requires queue != []
    requires Ascending(log) && Behind(log, queue)
    requires queue[0].1 < maxDepth ==>
               forall c :: c in Names(src(queue[0].0)) && c != queue[0].0 && c !in Authors(log) ==> (c, queue[0].1 + 1) in f
    ensures Covers(src, maxDepth, log + [queue[0]], queue[1..] + f, queue[0])
  {
    var (cur, depth) := queue[0];
    if depth < maxDepth {
      forall c | c in Names(src(cur)) && c != cur
        ensures LoggedBy(log + [queue[0]], c, depth + 1) || (c, depth + 1) in queue[1..] + f
      {
        if c in Authors(log) {
          LoggedEarly(log, queue, c);
          LoggedByMono(log, c, depth, depth + 1);
          LoggedByExtend(log, [queue[0]], c, depth + 1);
        } else {
          assert (c, depth + 1) in f;
        }
      }
    }
  }

  lemma CoverStep(src: Source, maxDepth: int, log: seq<Entry>, queue: seq<Entry>, f: seq<Entry>,
                  log': seq<Entry>, queue': seq<Entry>)
    requires queue != [] && log' == log + [queue[0]] && queue' == queue[1..] + f
    requires Ascending(log) && Behind(log, queue)
    requires Covered(src, maxDepth, log, queue)
    requires queue[0].1 < maxDepth ==>
               forall c :: c in Names(src(queue[0].0)) && c != queue[0].0 && c !in Authors(log) ==> (c, queue[0].1 + 1) in f
    ensures Covered(src, maxDepth, log', queue')
  {
    CoverAdvance(src, maxDepth, log, queue, f);
    CoverNew(src, maxDepth, log, queue, f);
    assert forall i :: 0 <= i < |log| ==> log'[i] == log[i];
    assert log'[|log|] == queue[0];
  }

  /** A step keeps the breadth-first frontier. */
  lemma StepKeepsCover(src: Source, maxDepth: int, st: Crawl)
    requires st.queue != []
    requires st.processed == Authors(st.log)
    requires Ascending(st.log) && Behind(st.log, st.queue)
    requires Covered(src, maxDepth, st.log, st.queue)
    ensures Covered(src, maxDepth, Step(src, maxDepth, st).log, Step(src, maxDepth, st).queue)
  {
    StepLogQueue(src, maxDepth, st);
    if st.queue[0].0 in st.processed {
      CoverSkip(src, maxDepth, st.log, st.queue);
    } else {
      var f := StepFollowups(src, maxDepth, st);
      CoverStep(src, maxDepth, st.log, st.queue, f, st.log + [st.queue[0]], st.queue[1..] + f);
    }
  }

  /** The records a step appends to the queue. This and `StepLogQueue`
      repeat part of `StepFields` in the shape `StepKeepsCover` needs; going
      through `StepFields` directly made that proof unstable across solver
      seeds. */
  function StepFollowups(src: Source, maxDepth: int, st: Crawl): (f: seq<Entry>)
    requires st.queue != []
    ensures st.queue[0].0 !in st.processed && st.queue[0].1 < maxDepth ==>
              forall c :: c in Names(src(st.queue[0].0)) && c != st.queue[0].0 && c !in st.processed ==> (c, st.queue[0].1 + 1) in f
  {
    var (cur, depth) := st.queue[0];
    if cur in st.processed || depth >= maxDepth then [] else Followups(cur, depth, Names(src(cur)), st.processed + {cur})
  }

  /** What a step does to the log and the queue, by whether the front author
      was processed before. */
  lemma StepLogQueue(src: Source, maxDepth: int, st: Crawl)
    requires st.queue != []
    ensures st.queue[0].0 in st.processed ==>
              Step(src, maxDepth, st).log == st.log && Step(src, maxDepth, st).queue == st.queue[1..]
    ensures st.queue[0].0 !in st.processed ==>
              Step(src, maxDepth, st).log == st.log + [st.queue[0]] &&
              Step(src, maxDepth, st).queue == st.queue[1..] + StepFollowups(src, maxDepth, st)
  {
    StepFields(src, maxDepth, st);
  }

  /** Every author the search names for a member of `authors` came from one. */
  lemma {:induction false} ExpandedFrom(src: Source, authors: set<string>, c: string)
    requires c in Expanded(src, authors)
    ensures exists a :: a in authors && c in Names(src(a))
    decreases |authors|
  {
    var b :| b in authors && Expanded(src, authors) == Expanded(src, authors - {b}) + Elements(Names(src(b)));
    if c !in Elements(Names(src(b))) {
      ExpandedFrom(src, authors - {b}, c);
    }
  }

  /** Once the queue has drained, every author within `k` search hops, for `k` up
      to the bound, has been logged at depth `k` or less. */
  lemma {:induction false} ReachLogged(src: Source, seed: string, maxDepth: int, log: seq<Entry>, k: nat)
    requires k <= Bound(maxDepth)
    requires log != [] && log[0] == (seed, 0)
    requires Covered(src, maxDepth, log, [])
    ensures forall y :: y in Reach(src, seed, k) ==> LoggedBy(log, y, k)
    decreases k
  {
    if k == 0 {
      assert Reach(src, seed, 0) == {seed};
      assert log[0].0 == seed && log[0].1 <= 0;
    } else {
      ReachLogged(src, seed, maxDepth, log, k - 1);
      forall y | y in Reach(src, seed, k)
        ensures LoggedBy(log, y, k)
      {
        if y in Reach(src, seed, k - 1) {
          LoggedByMono(log, y, k - 1, k);
        } else {
          ExpandedFrom(src, Reach(src, seed, k - 1), y);
          var a :| a in Reach(src, seed, k - 1) && y in Names(src(a));
          var j :| 0 <= j < |log| && log[j].0 == a && log[j].1 <= k - 1;
          if y == a {
            LoggedByMono(log, y, k - 1, k);
          } else {
            assert Covers(src, maxDepth, log, [], log[j]);
            LoggedByMono(log, y, log[j].1 + 1, k);
          }
        }
      }
    }
  }

  /** Once the queue has drained, the processed authors are exactly those
      within the depth bound's number of search hops of the seed. */
  lemma CompleteAuthors(src: Source, seed: string, maxDepth: int, log: seq<Entry>)
    requires log != [] && log[0] == (seed, 0)
    requires AllInRange(src, seed, maxDepth, log)
    requires Covered(src, maxDepth, log, [])
    ensures Authors(log) == Reach(src, seed, Bound(maxDepth))
  {
    var r := Reach(src, seed, Bound(maxDepth));
    LoggedInReach(src, seed, maxDepth, log);
    ReachLogged(src, seed, maxDepth, log, Bound(maxDepth));
    forall y | y in r
      ensures y in Authors(log)
    {
      assert LoggedBy(log, y, Bound(maxDepth));
      var j :| 0 <= j < |log| && log[j].0 == y && log[j].1 <= Bound(maxDepth);
      assert log[j] in log;
    }
  }

  /** Once the queue has drained, every author was processed at its least
      number of search hops from the seed: it is not within one hop fewer.
      This is not its distance in the built graph, which can be shorter. */
  lemma CompleteDepths(src: Source, seed: string, maxDepth: int, log: seq<Entry>)
    requires log != [] && log[0] == (seed, 0)
    requires DistinctAuthors(log) && AllInRange(src, seed, maxDepth, log)
    requires Covered(src, maxDepth, log, [])
    ensures forall i :: 0 <= i < |log| && log[i].1 > 0 ==> log[i].0 !in Reach(src, seed, log[i].1 - 1)
  {
    forall i | 0 <= i < |log| && log[i].1 > 0
      ensures log[i].0 !in Reach(src, seed, log[i].1 - 1)
    {
      FirstAtDepth(src, seed, maxDepth, log, i);
    }
  }

  lemma FirstAtDepth(src: Source, seed: string, maxDepth: int, log: seq<Entry>, i: int)
    requires log != [] && log[0] == (seed, 0)
    requires DistinctAuthors(log) && AllInRange(src, seed, maxDepth, log)
    requires Covered(src, maxDepth, log, [])
    requires 0 <= i < |log| && log[i].1 > 0
    ensures log[i].0 !in Reach(src, seed, log[i].1 - 1)
  {
    var d := log[i].1;
    assert InRange(src, seed, maxDepth, log[i]);
    ReachLogged(src, seed, maxDepth, log, d - 1);
    assert !LoggedBy(log, log[i].0, d - 1) by {
      forall j | 0 <= j < |log| && log[j].0 == log[i].0
        ensures log[j].1 > d - 1
      {
        assert j == i;
      }
    }
  }

  /** One iteration of the loop keeps the whole invariant. */
  lemma StepKeepsInv(src: Source, seed: string, maxDepth: int, st: Crawl)
    requires st.queue != []
    requires Inv(src, seed, maxDepth, st)
    ensures Inv(src, seed, maxDepth, Step(src, maxDepth, st))
  {
    StepKeepsLog(src, seed, maxDepth, st);
    StepKeepsQueue(src, seed, maxDepth, st);
    StepKeepsQueries(src, maxDepth, st);
    StepKeepsCover(src, maxDepth, st);
    StepGraph(src, maxDepth, st);
  }

  /** The invariant holds before the first iteration. */
  lemma StartInv(src: Source, seed: string, maxDepth: int)
    ensures Inv(src, seed, maxDepth, Start(seed))
  {
    assert InRange(src, seed, maxDepth, (seed, 0));
  }

  /** When the queue is empty, the nodes are exactly the processed authors,
      the seed first among them; they are the authors within the bound's
      number of search hops, each processed at its least number of search
      hops; the edges join each
      searched author to its co-authors, and no author is searched twice;
      with a bound of zero or less the graph is the seed alone, never
      searched. */
  lemma Finished(src: Source, seed: string, maxDepth: int, st: Crawl)
    requires st.queue == []
    requires Inv(src, seed, maxDepth, st)
    ensures st.log != [] && st.log[0] == (seed, 0)
    ensures seed in st.graph && st.graph.Keys == Authors(st.log)
    ensures st.graph.Keys == Reach(src, seed, Bound(maxDepth))
    ensures DistinctAuthors(st.log) && Ascending(st.log)
    ensures forall i :: 0 <= i < |st.log| ==>
              0 <= st.log[i].1 <= Bound(maxDepth) && st.log[i].0 in Reach(src, seed, st.log[i].1)
    ensures forall i :: 0 <= i < |st.log| && st.log[i].1 > 0 ==> st.log[i].0 !in Reach(src, seed, st.log[i].1 - 1)
    ensures st.queries == Queries(st.log, maxDepth)
    ensures forall i, j :: 0 <= i < j < |st.queries| ==> st.queries[i] != st.queries[j]
    ensures forall i :: 0 < i < |st.log| ==> Parent(src, maxDepth, st.log[..i], st.log[i])
    ensures Wf(st.graph) && Loopless(st.graph)
    ensures forall x, y :: Adjacent(st.graph, x, y) <==>
              x != y && ((x in Queries(st.log, maxDepth) && y in Names(src(x))) ||
                         (y in Queries(st.log, maxDepth) && x in Names(src(y))))
    ensures maxDepth <= 0 ==> st.graph == map[seed := {}] && Queries(st.log, maxDepth) == []
  {
    FinishedLog(src, seed, maxDepth, st.log, st.queue);
    FinishedGraph(src, maxDepth, st);
    CompleteAuthors(src, seed, maxDepth, st.log);
    CompleteDepths(src, seed, maxDepth, st.log);
    QueriesDistinct(st.log, maxDepth);
    if maxDepth <= 0 {
      SecondRecordDeep(src, seed, maxDepth, st.log);
      assert st.log == [(seed, 0)];
      SeedOnly(src, seed, maxDepth, st);
    }
  }

  lemma FinishedLog(src: Source, seed: string, maxDepth: int, log: seq<Entry>, queue: seq<Entry>)
    requires queue == []
    requires if log == [] then queue == [(seed, 0)] else log[0] == (seed, 0)
    requires LogOk(src, seed, maxDepth, log)
    ensures log != [] && log[0] == (seed, 0) && seed in Authors(log)
    ensures forall i :: 0 <= i < |log| ==> 0 <= log[i].1 <= Bound(maxDepth) && log[i].0 in Reach(src, seed, log[i].1)
    ensures forall i :: 0 < i < |log| ==> Parent(src, maxDepth, log[..i], log[i])
  {
    assert log[0] in log;
    assert forall i :: 0 <= i < |log| ==> InRange(src, seed, maxDepth, log[i]);
  }

  lemma FinishedGraph(src: Source, maxDepth: int, st: Crawl)
    requires st.queue == []
    requires GraphOk(src, maxDepth, st)
    ensures st.graph.Keys == st.processed
    ensures forall x, y :: Adjacent(st.graph, x, y) <==>
              x != y && ((x in Queries(st.log, maxDepth) && y in Names(src(x))) ||
                         (y in Queries(st.log, maxDepth) && x in Names(src(y))))
  {
    assert forall x, y :: Expands(src, maxDepth, st.log, x, y) <==> x in Queries(st.log, maxDepth) && y in Names(src(x));
  }

  /** A second logged record is at least one level deep, so it exists only
      under a positive bound. */
  lemma SecondRecordDeep(src: Source, seed: string, maxDepth: int, log: seq<Entry>)
    requires AllInRange(src, seed, maxDepth, log) && LogDiscovered(src, maxDepth, log)
    ensures |log| > 1 ==> maxDepth >= 1
  {
    if |log| > 1 {
      assert log[1].1 > 0;
      assert InRange(src, seed, maxDepth, log[1]);
    }
  }

  lemma SeedOnly(src: Source, seed: string, maxDepth: int, st: Crawl)
    requires maxDepth <= 0
    requires st.queue == [] && st.log == [(seed, 0)]
    requires st.processed == Authors(st.log)
    requires GraphOk(src, maxDepth, st)
    ensures st.graph == map[seed := {}] && Queries(st.log, maxDepth) == []
  {
    assert Authors(st.log) == {seed};
    assert Queries(st.log, maxDepth) == [];
    forall x, y
      ensures !Adjacent(st.graph, x, y)
    {
      assert !Expands(src, maxDepth, st.log, x, y);
    }
    SameGraph(st.graph, map[seed := {}]);
  }

  /** Distinct log authors give a search trace without repeats. */
  lemma {:induction false} QueriesDistinct(log: seq<Entry>, maxDepth: int)
    requires DistinctAuthors(log)
    ensures forall i, j :: 0 <= i < j < |Queries(log, maxDepth)| ==> Queries(log, maxDepth)[i] != Queries(log, maxDepth)[j]
    decreases |log|
  {
    if log != [] {
      var init := log[..|log| - 1];
      var last := log[|log| - 1];
      assert forall i :: 0 <= i < |init| ==> init[i] == log[i];
      QueriesDistinct(init, maxDepth);
      assert log == init + [last];
      QueriesAppend(init, last, maxDepth);
      assert last.0 !in Queries(init, maxDepth) by {
        forall i | 0 <= i < |init|
          ensures init[i].0 != last.0
        {
          assert init[i] == log[i];
        }
      }
    }
  }

  /** `build_collaboration_network(seed, maxDepth)` over the search `src`.
      Besides the graph it yields the processed records in order (what the
      progress lines print) and the authors it searched, in order. */
  method Build(src: Source, seed: string, maxDepth: int) returns (g: Graph, log: seq<Entry>, queries: seq<string>)
    ensures log != [] && log[0] == (seed, 0)
    ensures seed in g && g.Keys == Authors(log)
    ensures g.Keys == Reach(src, seed, Bound(maxDepth))
    ensures DistinctAuthors(log) && Ascending(log)
    ensures forall i :: 0 <= i < |log| ==> 0 <= log[i].1 <= Bound(maxDepth) && log[i].0 in Reach(src, seed, log[i].1)
    ensures forall i :: 0 <= i < |log| && log[i].1 > 0 ==> log[i].0 !in Reach(src, seed, log[i].1 - 1)
    ensures forall i :: 0 < i < |log| ==> Parent(src, maxDepth, log[..i], log[i])
    ensures queries == Queries(log, maxDepth)
    ensures forall i, j :: 0 <= i < j < |queries| ==> queries[i] != queries[j]
    ensures Wf(g) && Loopless(g)
    ensures forall x, y :: Adjacent(g, x, y) <==>
              x != y && ((x in queries && y in Names(src(x))) || (y in queries && x in Names(src(y))))
    ensures maxDepth <= 0 ==> g == map[seed := {}] && queries == []
  {
    var st := Start(seed);
    ghost var r := Reach(src, seed, Bound(maxDepth));
    StartInv(src, seed, maxDepth);
    while st.queue != []
      invariant Inv(src, seed, maxDepth, st)
      decreases |r - st.processed|, |st.queue|
    {
      StepMeasure(src, seed, maxDepth, st);
      StepKeepsInv(src, seed, maxDepth, st);
      st := Step(src, maxDepth, st);
    }
    Finished(src, seed, maxDepth, st);
    g, log, queries := st.graph, st.log, st.queries;
  }
}
