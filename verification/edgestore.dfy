/** Saving a graph as "Author1,Author2" rows and merging every saved `.csv`
    edge file of a folder back into one graph. A file is modelled by its name
    and the rows the CSV reader yields, not by its text. */
module EdgeStore {
  import opened Graphs

  /** A directory entry: its file name and its parsed rows. */
  datatype CsvFile = CsvFile(name: string, rows: seq<seq<string>>)

  /** Result of loading a folder. Reading the header of an empty `.csv`
      file raises, which aborts the whole load. */
  datatype Loaded = Loaded(graph: Graph) | MissingHeader(file: string)

  const Header: seq<string> := ["Author1", "Author2"]

  /** `filename.endswith(".csv")`. */
  predicate IsCsvName(name: string)
  {
    |name| >= 4 && name[|name| - 4..] == ".csv"
  }

  // ---------------------------------------------------------------------
  // Writer
  // ---------------------------------------------------------------------

  /** `es` lists every edge of `g` exactly once, in one orientation. */
  ghost predicate Enumerates(g: Graph, es: seq<(string, string)>)
  {
    && (forall i :: 0 <= i < |es| ==> Adjacent(g, es[i].0, es[i].1))
    && (forall x, y :: Adjacent(g, x, y) ==> (x, y) in es || (y, x) in es)
    && (forall i, j :: 0 <= i < j < |es| ==> es[i] != es[j] && es[i] != (es[j].1, es[j].0))
  }

  /** The pairs an edge sequence mentions. */
  ghost function PairSet(es: seq<(string, string)>): set<(string, string)>
  {
    set e | e in es
  }

  /** `for u, v in G.edges()`: nodes are visited one at a time, and a
      neighbour is reported unless its own node was visited earlier, so every
      edge comes out once. The visiting order is the map's, left open here. */
  method EdgeList(g: Graph) returns (es: seq<(string, string)>)
    requires Wf(g)
    ensures Enumerates(g, es)
  {
    es := [];
    var seen: set<string> := {};
    var todo := g.Keys;
    while todo != {}
      invariant todo !! seen && todo + seen == g.Keys
      invariant forall i :: 0 <= i < |es| ==> es[i].0 in seen && Adjacent(g, es[i].0, es[i].1)
      invariant forall x, y :: x in seen && Adjacent(g, x, y) ==> (x, y) in es || (y, x) in es
      invariant forall i, j :: 0 <= i < j < |es| ==> es[i] != es[j] && es[i] != (es[j].1, es[j].0)
      decreases todo
    {
      var n :| n in todo;
      var nbrs := g[n];
      var done: set<string> := {};
      while nbrs != {}
        invariant nbrs !! done && nbrs + done == g[n]
        invariant forall i :: 0 <= i < |es| ==>
                    (es[i].0 in seen || (es[i].0 == n && es[i].1 in done)) && Adjacent(g, es[i].0, es[i].1)
        invariant forall x, y :: x in seen && Adjacent(g, x, y) ==> (x, y) in es || (y, x) in es
        invariant forall y :: y in done ==> (n, y) in es || (y, n) in es
        invariant forall i, j :: 0 <= i < j < |es| ==> es[i] != es[j] && es[i] != (es[j].1, es[j].0)
        decreases nbrs
      {
        var v :| v in nbrs;
        if v !in seen {
          es := es + [(n, v)];
        } else {
          assert Adjacent(g, v, n);
        }
        nbrs := nbrs - {v};
        done := done + {v};
      }
      seen := seen + {n};
      todo := todo - {n};
    }
  }

  /** `save_edges_to_csv` minus the file handling: the header row, then one
      `[u, v]` row per listed edge, in listing order. */
  function CsvRows(es: seq<(string, string)>): (rows: seq<seq<string>>)
    ensures |rows| == |es| + 1 && rows[0] == Header
    ensures forall i :: 0 <= i < |es| ==> rows[i + 1] == [es[i].0, es[i].1]
  {
    [Header] + seq(|es|, i requires 0 <= i < |es| => [es[i].0, es[i].1])
  }

  // ---------------------------------------------------------------------
  // Loader
  // ---------------------------------------------------------------------

  /** The pairs contributed by data rows: every row with exactly two fields. */
  ghost function RowPairs(rows: seq<seq<string>>): set<(string, string)>
  {
    set r | r in rows && |r| == 2 :: (r[0], r[1])
  }

  /** The pairs one file contributes: nothing unless it is a `.csv` file,
      and never its first (header) row. */
  ghost function FilePairs(f: CsvFile): set<(string, string)>
  {
    if IsCsvName(f.name) && f.rows != [] then RowPairs(f.rows[1..]) else {}
  }

  /** The pairs a whole folder contributes. */
  ghost function Pairs(files: seq<CsvFile>): set<(string, string)>
  {
    if files == [] then {} else FilePairs(files[0]) + Pairs(files[1..])
  }

  /** Every `.csv` file has at least its header row. */
  ghost predicate AllHaveHeader(files: seq<CsvFile>)
  {
    forall i :: 0 <= i < |files| && IsCsvName(files[i].name) ==> files[i].rows != []
  }

  /** The loader's row loop: an edge for every row of exactly two fields, in
      order; rows of any other length add nothing. */
  function AddRows(g: Graph, rows: seq<seq<string>>): Graph
    decreases |rows|
  {
    if rows == [] then g
    else AddRows(if |rows[0]| == 2 then AddEdge(g, rows[0][0], rows[0][1]) else g, rows[1..])
  }

  lemma EndsUnion(a: set<(string, string)>, b: set<(string, string)>)
    ensures Ends(a + b) == Ends(a) + Ends(b)
  {
  }

  lemma EndsSingleton(u: string, v: string)
    ensures Ends({(u, v)}) == {u, v}
  {
    assert (u, v) in {(u, v)};
  }

  /** Adding an edge to the graph of a pair set gives the graph of the
      larger pair set. */
  lemma AddEdgeGraphOf(pairs: set<(string, string)>, u: string, v: string)
    ensures AddEdge(GraphOf(pairs), u, v) == GraphOf(pairs + {(u, v)})
  {
    var g1 := AddEdge(GraphOf(pairs), u, v);
    var g2 := GraphOf(pairs + {(u, v)});
    EndsUnion(pairs, {(u, v)});
    EndsSingleton(u, v);
    AddEdgeGraphOfAdjacency(pairs, u, v);
    SameGraph(g1, g2);
  }

  lemma AddEdgeGraphOfAdjacency(pairs: set<(string, string)>, u: string, v: string)
    ensures forall x, y :: Adjacent(AddEdge(GraphOf(pairs), u, v), x, y) <==> Adjacent(GraphOf(pairs + {(u, v)}), x, y)
  {
    forall x, y
      ensures Adjacent(AddEdge(GraphOf(pairs), u, v), x, y) <==> Adjacent(GraphOf(pairs + {(u, v)}), x, y)
    {
      GraphOfWithPair(pairs, u, v, x, y);
    }
  }

  lemma GraphOfWithPair(pairs: set<(string, string)>, u: string, v: string, x: string, y: string)
    ensures Adjacent(GraphOf(pairs + {(u, v)}), x, y) <==>
              (x, y) in pairs || (y, x) in pairs || (x == u && y == v) || (x == v && y == u)
  {
  }

  lemma RowPairsCons(rows: seq<seq<string>>)
    requires rows != []
    ensures RowPairs(rows) == (if |rows[0]| == 2 then {(rows[0][0], rows[0][1])} else {}) + RowPairs(rows[1..])
  {
    assert forall r :: r in rows <==> r == rows[0] || r in rows[1..];
  }

  /** Folding the rows of a file into a graph adds exactly the pairs of its
      two-field rows, whatever their order or repetitions. */
  lemma {:induction false} AddRowsGraphOf(pairs: set<(string, string)>, rows: seq<seq<string>>)
    ensures AddRows(GraphOf(pairs), rows) == GraphOf(pairs + RowPairs(rows))
    decreases |rows|
  {
    if rows == [] {
      assert RowPairs(rows) == {};
      assert pairs + RowPairs(rows) == pairs;
    } else {
      RowPairsCons(rows);
      var head := if |rows[0]| == 2 then {(rows[0][0], rows[0][1])} else {};
      var next := if |rows[0]| == 2 then AddEdge(GraphOf(pairs), rows[0][0], rows[0][1]) else GraphOf(pairs);
      assert next == GraphOf(pairs + head) by {
        if |rows[0]| == 2 {
          AddEdgeGraphOf(pairs, rows[0][0], rows[0][1]);
        } else {
          assert pairs + head == pairs;
        }
      }
      assert pairs + head + RowPairs(rows[1..]) == pairs + RowPairs(rows);
      calc {
        AddRows(GraphOf(pairs), rows);
        AddRows(next, rows[1..]);
        AddRows(GraphOf(pairs + head), rows[1..]);
        { AddRowsGraphOf(pairs + head, rows[1..]); }
        GraphOf(pairs + head + RowPairs(rows[1..]));
        GraphOf(pairs + RowPairs(rows));
      }
    }
  }

  /** The folder loop: files are taken in listing order, non-`.csv` names are
      skipped, and the first `.csv` file without a header row aborts. */
  function LoadFiles(g: Graph, files: seq<CsvFile>): (r: Loaded)
    ensures r.Loaded? <==> AllHaveHeader(files)
    decreases |files|
  {
    if files == [] then Loaded(g)
    else
      var f := files[0];
      if IsCsvName(f.name) && f.rows == [] then MissingHeader(f.name)
      else
        var r := LoadFiles(if IsCsvName(f.name) then AddRows(g, f.rows[1..]) else g, files[1..]);
        assert AllHaveHeader(files) <==> AllHaveHeader(files[1..]) by {
          assert forall i :: 0 < i < |files| ==> files[i] == files[1..][i - 1];
        }
        r
  }

  /** A load that fails names the first `.csv` file of the listing that has
      no header row. */
  lemma {:induction false} LoadFilesFailure(g: Graph, files: seq<CsvFile>)
    requires LoadFiles(g, files).MissingHeader?
    ensures exists i :: 0 <= i < |files| && IsCsvName(files[i].name) && files[i].rows == []
                        && files[i].name == LoadFiles(g, files).file && AllHaveHeader(files[..i])
    decreases |files|
  {
    var f := files[0];
    if IsCsvName(f.name) && f.rows == [] {
      assert AllHaveHeader(files[..0]);
    } else {
      var g' := if IsCsvName(f.name) then AddRows(g, f.rows[1..]) else g;
      LoadFilesFailure(g', files[1..]);
      var i :| 0 <= i < |files[1..]| && IsCsvName(files[1..][i].name) && files[1..][i].rows == []
               && files[1..][i].name == LoadFiles(g', files[1..]).file && AllHaveHeader(files[1..][..i]);
      assert files[..i + 1] == [f] + files[1..][..i];
      assert files[i + 1] == files[1..][i];
    }
  }

  /** Loading a folder into the graph of a pair set adds exactly the pairs of
      the folder. */
  lemma {:induction false} LoadFilesGraphOf(pairs: set<(string, string)>, files: seq<CsvFile>)
    requires AllHaveHeader(files)
    ensures LoadFiles(GraphOf(pairs), files) == Loaded(GraphOf(pairs + Pairs(files)))
    decreases |files|
  {
    if files == [] {
      assert pairs + Pairs(files) == pairs;
    } else {
      var f := files[0];
      assert AllHaveHeader(files[1..]) by {
        forall i | 0 <= i < |files[1..]| && IsCsvName(files[1..][i].name)
          ensures files[1..][i].rows != []
        {
          assert files[1..][i] == files[i + 1];
        }
      }
      if IsCsvName(f.name) {
        assert f.rows != [] by { assert files[0] == f; }
        AddRowsGraphOf(pairs, f.rows[1..]);
        LoadFilesGraphOf(pairs + RowPairs(f.rows[1..]), files[1..]);
        assert pairs + RowPairs(f.rows[1..]) + Pairs(files[1..]) == pairs + Pairs(files);
      } else {
        LoadFilesGraphOf(pairs, files[1..]);
        assert Pairs(files) == Pairs(files[1..]);
      }
    }
  }

  /** `load_all_csv_edges`: the union of the edges of every `.csv` file of
      the folder, duplicates collapsed; it fails only on a headerless file. */
  function LoadAll(files: seq<CsvFile>): (r: Loaded)
    ensures r.Loaded? <==> AllHaveHeader(files)
    ensures r.Loaded? ==> r.graph == GraphOf(Pairs(files))
  {
    var r := LoadFiles(map[], files);
    if r.Loaded? then
      assert GraphOf({}) == map[] by { assert Ends({}) == {}; }
      LoadFilesGraphOf({}, files);
      assert {} + Pairs(files) == Pairs(files);
      r
    else r
  }

  // ---------------------------------------------------------------------
  // Properties of the loader and of save-then-load
  // ---------------------------------------------------------------------

  lemma {:induction false} PairsAppend(a: seq<CsvFile>, b: seq<CsvFile>)
    ensures Pairs(a + b) == Pairs(a) + Pairs(b)
    decreases |a|
  {
    if a == [] {
      assert a + b == b;
    } else {
      assert (a + b)[1..] == a[1..] + b;
      PairsAppend(a[1..], b);
    }
  }

  lemma HeaderAppend(a: seq<CsvFile>, b: seq<CsvFile>)
    ensures AllHaveHeader(a + b) <==> AllHaveHeader(a) && AllHaveHeader(b)
  {
    if AllHaveHeader(a) && AllHaveHeader(b) {
      forall i | 0 <= i < |a + b| && IsCsvName((a + b)[i].name)
        ensures (a + b)[i].rows != []
      {
        if i >= |a| {
          assert (a + b)[i] == b[i - |a|];
        }
      }
    }
    if AllHaveHeader(a + b) {
      forall i | 0 <= i < |a| && IsCsvName(a[i].name)
        ensures a[i].rows != []
      {
        assert (a + b)[i] == a[i];
      }
      forall i | 0 <= i < |b| && IsCsvName(b[i].name)
        ensures b[i].rows != []
      {
        assert (a + b)[|a| + i] == b[i];
      }
    }
  }

  /** Merging is a union: the listing order of the folder does not matter. */
  lemma LoadAllOrderFree(a: seq<CsvFile>, b: seq<CsvFile>)
    ensures LoadAll(a + b).Loaded? == LoadAll(b + a).Loaded?
    ensures LoadAll(a + b).Loaded? ==> LoadAll(a + b) == LoadAll(b + a)
  {
    HeaderAppend(a, b);
    HeaderAppend(b, a);
    if LoadAll(a + b).Loaded? {
      assert Pairs(a + b) == Pairs(b + a) by {
        PairsAppend(a, b);
        PairsAppend(b, a);
      }
      assert LoadAll(a + b).graph == LoadAll(b + a).graph;
    }
  }

  /** Edge files saved twice (or overlapping files) collapse to one graph. */
  lemma LoadAllDuplicates(files: seq<CsvFile>)
    ensures LoadAll(files + files).Loaded? == LoadAll(files).Loaded?
    ensures LoadAll(files).Loaded? ==> LoadAll(files + files) == LoadAll(files)
  {
    HeaderAppend(files, files);
    if LoadAll(files).Loaded? {
      assert Pairs(files + files) == Pairs(files) by {
        PairsAppend(files, files);
      }
      assert LoadAll(files + files).graph == LoadAll(files).graph;
    }
  }

  /** Without a single `.csv` name the folder loads as the empty graph. */
  lemma {:induction false} LoadAllNoCsv(files: seq<CsvFile>)
    requires forall i :: 0 <= i < |files| ==> !IsCsvName(files[i].name)
    ensures LoadAll(files) == Loaded(map[])
    decreases |files|
  {
    if files == [] {
      assert Ends({}) == {};
    } else {
      LoadAllNoCsv(files[1..]);
      assert Pairs(files) == Pairs(files[1..]);
    }
  }

  /** The first row of a file is never read as an edge, whatever it holds. */
  lemma FirstRowSkipped(name: string, first: seq<string>, rows: seq<seq<string>>)
    requires IsCsvName(name)
    ensures LoadAll([CsvFile(name, [first] + rows)]) == Loaded(GraphOf(RowPairs(rows)))
  {
    var f := CsvFile(name, [first] + rows);
    assert f.rows[1..] == rows;
    assert [f][1..] == [];
    assert Pairs([f]) == RowPairs(rows);
    assert AllHaveHeader([f]);
  }

  /** A row whose field count is not two changes nothing. */
  lemma MalformedRowIgnored(rows: seq<seq<string>>, bad: seq<string>)
    requires |bad| != 2
    ensures RowPairs(rows + [bad]) == RowPairs(rows)
  {
    assert forall r :: r in rows + [bad] <==> r in rows || r == bad;
  }

  /** A data row naming the same author twice is loaded as a self-loop: the
      loader, unlike the builder, keeps no loop-freedom promise. */
  lemma SelfLoopRowKept(name: string, first: seq<string>, x: string)
    requires IsCsvName(name)
    ensures LoadAll([CsvFile(name, [first, [x, x]])]).Loaded?
    ensures Adjacent(LoadAll([CsvFile(name, [first, [x, x]])]).graph, x, x)
  {
    FirstRowSkipped(name, first, [[x, x]]);
    assert [first, [x, x]] == [first] + [[x, x]];
    assert (x, x) in RowPairs([[x, x]]) by { assert [x, x] in [[x, x]]; }
  }

  /** The data rows written for an edge listing give back its pairs. */
  lemma CsvRowsPairs(es: seq<(string, string)>)
    ensures RowPairs(CsvRows(es)[1..]) == PairSet(es)
  {
    var data := CsvRows(es)[1..];
    assert forall i :: 0 <= i < |data| ==> data[i] == [es[i].0, es[i].1];
    forall p | p in PairSet(es)
      ensures p in RowPairs(data)
    {
      var i :| 0 <= i < |es| && es[i] == p;
      assert data[i] in data;
    }
  }

  /** An edge listing spans the graph minus its isolated nodes. */
  lemma EnumerationSpans(g: Graph, es: seq<(string, string)>)
    requires Wf(g) && Enumerates(g, es)
    ensures GraphOf(PairSet(es)) == DropIsolated(g)
  {
    var lhs := GraphOf(PairSet(es));
    var rhs := DropIsolated(g);
    forall x, y
      ensures Adjacent(lhs, x, y) <==> Adjacent(rhs, x, y)
    {
      if (x, y) in PairSet(es) || (y, x) in PairSet(es) {
        assert Adjacent(g, x, y);
      }
    }
    forall u | u in rhs
      ensures u in lhs
    {
      var v :| v in g[u];
      assert Adjacent(lhs, u, v);
    }
    forall u | u in lhs
      ensures u in rhs
    {
      var p :| p in PairSet(es) && (p.0 == u || p.1 == u);
      assert Adjacent(g, p.0, p.1) && Adjacent(g, p.1, p.0);
    }
    SameGraph(lhs, rhs);
  }

  /** Saving then loading restores every edge, but a node without edges (the
      lone seed of a depth-0 build, say) does not come back. */
  lemma SaveLoadRoundTrip(g: Graph, es: seq<(string, string)>, name: string)
    requires Wf(g) && Enumerates(g, es)
    requires IsCsvName(name)
    ensures LoadAll([CsvFile(name, CsvRows(es))]) == Loaded(DropIsolated(g))
  {
    var rows := CsvRows(es);
    assert rows == [rows[0]] + rows[1..];
    FirstRowSkipped(name, rows[0], rows[1..]);
    CsvRowsPairs(es);
    EnumerationSpans(g, es);
  }

  /** The rows `save_edges_to_csv` writes: the header, then each edge of the
      graph exactly once; loading them back gives the graph minus its
      isolated nodes. */
  method SaveRows(g: Graph) returns (rows: seq<seq<string>>)
    requires Wf(g)
    ensures |rows| >= 1 && rows[0] == Header
    ensures forall i :: 1 <= i < |rows| ==> |rows[i]| == 2 && Adjacent(g, rows[i][0], rows[i][1])
    ensures forall x, y :: Adjacent(g, x, y) ==>
              exists i :: 1 <= i < |rows| && (rows[i] == [x, y] || rows[i] == [y, x])
    ensures forall i, j :: 1 <= i < j < |rows| ==> rows[i] != rows[j] && rows[i] != [rows[j][1], rows[j][0]]
    ensures forall name :: IsCsvName(name) ==> LoadAll([CsvFile(name, rows)]) == Loaded(DropIsolated(g))
  {
    var es := EdgeList(g);
    rows := CsvRows(es);
    forall name | IsCsvName(name)
      ensures LoadAll([CsvFile(name, rows)]) == Loaded(DropIsolated(g))
    {
      SaveLoadRoundTrip(g, es, name);
    }
    forall x, y | Adjacent(g, x, y)
      ensures exists i :: 1 <= i < |rows| && (rows[i] == [x, y] || rows[i] == [y, x])
    {
      var k :| 0 <= k < |es| && (es[k] == (x, y) || es[k] == (y, x));
      assert rows[k + 1] == [es[k].0, es[k].1];
    }
    forall i, j | 1 <= i < j < |rows|
      ensures rows[i] != rows[j] && rows[i] != [rows[j][1], rows[j][0]]
    {
      assert rows[i] == [es[i - 1].0, es[i - 1].1];
      assert rows[j] == [es[j - 1].0, es[j - 1].1];
    }
  }
}
