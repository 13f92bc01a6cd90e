/** Model of intersectomics/graph.py: building one correlation graph per
    omics layer, intersecting the layer graphs, pruning isolated nodes and
    isolated pairs, and turning a community partition into integer labels. */
module Graphs {
  import opened Common
  import opened Sorting

  // ---------------------------------------------------------------------
  // Undirected graphs as networkx stores them
  // ---------------------------------------------------------------------

  /** networkx's adjacency dictionary `G._adj`: node -> neighbour -> the
      edge's `weight` attribute, None when the edge carries no weight. */
  type Adj = map<Node, map<Node, Option<real>>>

  /** A simple undirected graph: every neighbour is a node, adjacency is
      symmetric with one shared attribute, and there are no self-loops. */
  ghost predicate Simple(adj: Adj)
  {
    forall u, v :: u in adj && v in adj[u] ==>
      v in adj && u in adj[v] && u != v && adj[v][u] == adj[u][v]
  }

  /** `G.remove_nodes_from(s)`: drops the nodes of `s` (absent ones are
      ignored) together with every edge touching them. */
  function RemoveNodes(adj: Adj, s: set<Node>): (r: Adj)
    ensures r.Keys == adj.Keys - s
    ensures forall u :: u in r ==> r[u].Keys == adj[u].Keys - s
    ensures forall u, v :: u in r && v in r[u] ==> r[u][v] == adj[u][v]
  {
    map u | u in adj && u !in s :: map v | v in adj[u] && v !in s :: adj[u][v]
  }

  /** `nx.isolates(G)`: the nodes without neighbours. */
  function IsolatesOf(adj: Adj): set<Node>
  {
    set u | u in adj && |adj[u]| == 0
  }

  /** `G.add_nodes_from(ns)`: adds the absent nodes without edges. */
  function AddNodes(adj: Adj, ns: set<Node>): (r: Adj)
    ensures r.Keys == adj.Keys + ns
    ensures forall u :: u in adj ==> r[u] == adj[u]
    ensures forall u :: u in r && u !in adj ==> r[u] == map[]
  {
    adj + map u | u in ns && u !in adj :: map[]
  }

  /** `G.add_edge(u, v, weight=w)`: adds the missing endpoints and sets the
      edge's weight, replacing the weight of an existing edge (for u == v a
      self-loop). */
  function WithEdge(adj: Adj, u: Node, v: Node, w: real): Adj
  {
    var a := AddNodes(adj, {u, v});
    a[u := a[u][v := Some(w)]][v := a[v][u := Some(w)]]
  }

  /** A networkx `Graph` object; the pipeline copies it and changes it in place. */
  class Graph {
    var adj: Adj

    ghost predicate IsSimple()
      reads this
    {
      Simple(adj)
    }

    /** `nx.Graph()`: the empty graph. */
    constructor ()
      ensures adj == map[] && IsSimple()
    {
      adj := map[];
    }

    /** A graph object holding the given adjacency. */
    constructor FromAdj(a: Adj)
      ensures adj == a
    {
      adj := a;
    }

    /** `G.copy()`: a new object with the same nodes, edges and weights. */
    method Copy() returns (h: Graph)
      ensures fresh(h) && h.adj == adj
    {
      h := new Graph.FromAdj(adj);
    }

    function Isolates(): set<Node>
      reads this
    {
      IsolatesOf(adj)
    }

    method AddNodesFrom(ns: set<Node>)
      modifies this
      ensures adj == AddNodes(old(adj), ns)
    {
      adj := AddNodes(adj, ns);
    }

    method AddEdge(u: Node, v: Node, w: real)
      modifies this
      ensures adj == WithEdge(old(adj), u, v, w)
    {
      adj := WithEdge(adj, u, v, w);
    }

    method RemoveNodesFrom(ns: set<Node>)
      modifies this
      ensures adj == RemoveNodes(old(adj), ns)
    {
      adj := RemoveNodes(adj, ns);
    }
  }

  // ---------------------------------------------------------------------
  // remove_G_pair_isolates
  // ---------------------------------------------------------------------

  /** The neighbour of a node of degree one. */
  ghost function OnlyNeighbour(adj: Adj, u: Node): (v: Node)
    requires u in adj && |adj[u]| == 1
    ensures adj[u].Keys == {v}
  {
    var v :| v in adj[u];
    SingletonSet(adj[u].Keys, v);
    v
  }

  /** `u` has exactly one neighbour and is that neighbour's only neighbour:
      the two form a component of their own. */
  ghost predicate InIsolatedPair(adj: Adj, u: Node)
  {
    u in adj && |adj[u]| == 1 &&
    var v := OnlyNeighbour(adj, u);
    v in adj && |adj[v]| == 1 && u in adj[v]
  }

  /** The nodes the loop of `remove_G_pair_isolates` puts on `to_remove`. */
  ghost function PairIsolateMarks(adj: Adj): set<Node>
  {
    set u | u in adj && (|adj[u]| == 0 || InIsolatedPair(adj, u))
  }

  /** What `remove_G_pair_isolates` returns: the marked nodes are removed,
      then whatever became isolated. */
  ghost function WithoutPairIsolates(adj: Adj): Adj
  {
    var pruned := RemoveNodes(adj, PairIsolateMarks(adj));
    RemoveNodes(pruned, IsolatesOf(pruned))
  }

  lemma SingletonSet(s: set<Node>, x: Node)
    requires |s| == 1 && x in s
    ensures s == {x}
  {
    assert |s - {x}| == 0;
    assert s == (s - {x}) + {x};
  }

  /** The partner of a node in an isolated pair is in that pair too. */
  lemma PairPartner(adj: Adj, u: Node, v: Node)
    requires Simple(adj)
    requires u in adj && v in adj[u]
    ensures InIsolatedPair(adj, v) ==> InIsolatedPair(adj, u)
  {
    if InIsolatedPair(adj, v) {
      assert OnlyNeighbour(adj, v) == u;
      assert OnlyNeighbour(adj, u) == v;
    }
  }

  /** A neighbour of an unmarked node is unmarked. */
  lemma NeighbourOfKeptIsKept(adj: Adj, u: Node, v: Node)
    requires Simple(adj)
    requires u in adj && u !in PairIsolateMarks(adj) && v in adj[u]
    ensures v in adj && v !in PairIsolateMarks(adj)
  {
    PairPartner(adj, u, v);
  }

  /** Removing nodes from a simple graph leaves a simple graph. */
  lemma RemoveNodesSimple(adj: Adj, s: set<Node>)
    requires Simple(adj)
    ensures Simple(RemoveNodes(adj, s))
  {
    var r := RemoveNodes(adj, s);
    forall u, v | u in r && v in r[u]
      ensures v in r && u in r[v] && u != v && r[v][u] == r[u][v]
    {
      assert v in adj[u];
    }
  }

  /** Removing no node, or only absent ones, changes nothing. */
  lemma RemoveNothing(adj: Adj)
    ensures RemoveNodes(adj, {}) == adj
  {
    var r := RemoveNodes(adj, {});
    forall u | u in r
      ensures r[u] == adj[u]
    {
      assert r[u].Keys == adj[u].Keys;
    }
    assert r.Keys == adj.Keys;
  }

  /** After the marked nodes are gone, an unmarked node still has all its
      neighbours, hence at least one. */
  lemma KeptNeighbourhood(adj: Adj, u: Node)
    requires Simple(adj)
    requires u in adj && u !in PairIsolateMarks(adj)
    ensures var pruned := RemoveNodes(adj, PairIsolateMarks(adj));
      pruned[u] == adj[u] && |pruned[u]| >= 1
  {
    var marks := PairIsolateMarks(adj);
    forall v | v in adj[u]
      ensures v !in marks
    {
      NeighbourOfKeptIsKept(adj, u, v);
    }
    RemoveAwayFrom(adj, marks, u);
  }

  /** Removing nodes away from `u` and its neighbours leaves its
      neighbourhood as it was. */
  lemma RemoveAwayFrom(adj: Adj, s: set<Node>, u: Node)
    requires u in adj && u !in s
    requires forall v :: v in adj[u] ==> v !in s
    ensures u in RemoveNodes(adj, s) && RemoveNodes(adj, s)[u] == adj[u]
  {
    assert RemoveNodes(adj, s)[u].Keys == adj[u].Keys;
  }

  lemma KeptNeighbourhoods(adj: Adj)
    requires Simple(adj)
    ensures var pruned := RemoveNodes(adj, PairIsolateMarks(adj));
      forall u :: u in pruned ==> pruned[u] == adj[u] && |pruned[u]| >= 1
  {
    forall u | u in RemoveNodes(adj, PairIsolateMarks(adj))
      ensures RemoveNodes(adj, PairIsolateMarks(adj))[u] == adj[u]
      ensures |RemoveNodes(adj, PairIsolateMarks(adj))[u]| >= 1
    {
      KeptNeighbourhood(adj, u);
    }
  }

  /** The contract of `remove_G_pair_isolates`: a node is removed exactly when
      it has no neighbour or forms an isolated pair, so every node of degree
      at least two stays; each kept node keeps all its neighbours and
      weights, so the result is the induced subgraph on the kept nodes and
      has no isolated node; the second, isolate-removing step removes
      nothing. */
  lemma PairIsolatesRemoved(adj: Adj)
    requires Simple(adj)
    ensures var r := WithoutPairIsolates(adj);
      && Simple(r)
      && (forall u :: u in r <==> u in adj && |adj[u]| != 0 && !InIsolatedPair(adj, u))
      && (forall u :: u in adj && |adj[u]| >= 2 ==> u in r)
      && (forall u :: u in r ==> r[u] == adj[u] && |r[u]| >= 1)
      && r == RemoveNodes(adj, PairIsolateMarks(adj))
  {
    var pruned := RemoveNodes(adj, PairIsolateMarks(adj));
    KeptNeighbourhoods(adj);
    assert IsolatesOf(pruned) == {};
    RemoveNothing(pruned);
    RemoveNodesSimple(adj, PairIsolateMarks(adj));
    forall u | u in adj && |adj[u]| >= 2
      ensures u in pruned
    {
      assert !InIsolatedPair(adj, u);
    }
  }

  /** `remove_G_pair_isolates(G_in)`: marks, in any order of the nodes, the
      isolated nodes and both ends of every isolated edge of a copy of the
      graph, then removes the marked nodes and the remaining isolates from
      the copy. The input graph is left as it was. */
  method RemovePairIsolates(gIn: Graph) returns (g: Graph)
    requires gIn.IsSimple()
    ensures fresh(g) && g.IsSimple()
    ensures g.adj == WithoutPairIsolates(gIn.adj)
    ensures gIn.adj == old(gIn.adj)
  {
    g := gIn.Copy();
    var toRemove := PairIsolateList(g.adj);
    g.RemoveNodesFrom(Elements(toRemove));
    g.RemoveNodesFrom(g.Isolates());
    PairIsolatesRemoved(gIn.adj);
  }

  /** The marking loop of `remove_G_pair_isolates`: visits the nodes in any
      order; a node not yet listed is listed when it has no neighbour, and
      together with its neighbour when the two are each other's only
      neighbour. */
  method PairIsolateList(adj: Adj) returns (toRemove: seq<Node>)
    requires Simple(adj)
    ensures Elements(toRemove) == PairIsolateMarks(adj)
  {
    ghost var marks := PairIsolateMarks(adj);
    toRemove := [];
    var todo := adj.Keys;
    while todo != {}
      invariant todo <= adj.Keys
      invariant forall i :: 0 <= i < |toRemove| ==> toRemove[i] in marks
      invariant forall x :: x in adj && x !in todo && x in marks ==> x in toRemove
      decreases todo
    {
      var node :| node in todo;
      todo := todo - {node};
      if node !in toRemove {
        var neighbors := adj[node].Keys;
        DegreeMarks(adj, node);
        if |neighbors| == 0 {
          toRemove := toRemove + [node];
        } else if |neighbors| == 1 {
          var nb :| nb in neighbors;
          PairMarks(adj, node, nb);
          var neighborsOfNeighbor := adj[nb].Keys;
          // the only neighbour of `nb` is `node`
          if |neighborsOfNeighbor| == 1 && node in neighborsOfNeighbor {
            toRemove := toRemove + [node, nb];
          }
        }
      }
    }
  }

  /** Nodes without neighbours are marked, nodes with two or more are not. */
  lemma DegreeMarks(adj: Adj, u: Node)
    requires u in adj
    ensures |adj[u]| == 0 ==> u in PairIsolateMarks(adj)
    ensures |adj[u]| >= 2 ==> u !in PairIsolateMarks(adj)
  {
  }

  /** A node with the single neighbour `v` is marked exactly when `v` has it
      as its single neighbour, and then `v` is marked as well. */
  lemma PairMarks(adj: Adj, u: Node, v: Node)
    requires Simple(adj)
    requires u in adj && |adj[u]| == 1 && v in adj[u]
    ensures v in adj
    ensures u in PairIsolateMarks(adj) <==> |adj[v]| == 1 && u in adj[v]
    ensures u in PairIsolateMarks(adj) ==> v in PairIsolateMarks(adj)
  {
    assert OnlyNeighbour(adj, u) == v;
    if |adj[v]| == 1 && u in adj[v] {
      assert OnlyNeighbour(adj, v) == u;
      assert InIsolatedPair(adj, u) && InIsolatedPair(adj, v);
    }
  }

  // ---------------------------------------------------------------------
  // make_corr_graph
  // ---------------------------------------------------------------------

  /** A pandas DataFrame of floats: row labels, column labels, and the cells
      that hold a number, keyed by (row, column); an absent cell is NaN. */
  datatype Frame = Frame(index: seq<Node>, columns: seq<Node>, cells: map<(Node, Node), real>)

  /** A row of the melted table: biomolecule1 is the cell's row label,
      biomolecule2 its column label. */
  datatype Record = Record(row: Node, col: Node, value: real, absValue: real)

  function Abs(x: real): real
  {
    if x < 0.0 then -x else x
  }

  function Max(x: real, y: real): real
  {
    if x < y then y else x
  }

  /** No cell pairs a biomolecule with itself (the matrices come from pairs
      of distinct biomolecules, so their diagonal is NaN). */
  predicate NoSelfCells(f: Frame)
  {
    forall p :: p in f.cells ==> p.0 != p.1
  }

  /** Cell (r, c) survives `corr[pvalues <= pvalue_cutoff]` and `dropna()`:
      both matrices hold a number there and the p-value is at most the cutoff. */
  predicate Significant(corr: Frame, pvalues: Frame, pvalueCutoff: real, r: Node, c: Node)
  {
    (r, c) in corr.cells && (r, c) in pvalues.cells && pvalues.cells[(r, c)] <= pvalueCutoff
  }

  /** `x` is the melted record of a significant cell. */
  predicate SignificantRecord(corr: Frame, pvalues: Frame, pvalueCutoff: real, x: Record)
  {
    Significant(corr, pvalues, pvalueCutoff, x.row, x.col) &&
    x.value == corr.cells[(x.row, x.col)] && x.absValue == Abs(x.value)
  }

  /** The significant cells of column `c`, top to bottom. */
  function MeltColumn(corr: Frame, pvalues: Frame, pvalueCutoff: real, rows: seq<Node>, c: Node)
    : (recs: seq<Record>)
    ensures forall x :: x in recs <==>
      x.row in rows && x.col == c && SignificantRecord(corr, pvalues, pvalueCutoff, x)
  {
    if rows == [] then []
    else
      var r := rows[0];
      var rest := MeltColumn(corr, pvalues, pvalueCutoff, rows[1..], c);
      if Significant(corr, pvalues, pvalueCutoff, r, c) then
        var v := corr.cells[(r, c)];
        [Record(r, c, v, Abs(v))] + rest
      else rest
  }

  /** `corr[pvalues <= pvalue_cutoff].melt(ignore_index=False).dropna()`:
      the significant cells, column after column. */
  function MeltColumns(corr: Frame, pvalues: Frame, pvalueCutoff: real, cols: seq<Node>)
    : (recs: seq<Record>)
    ensures forall x :: x in recs <==>
      x.row in corr.index && x.col in cols && SignificantRecord(corr, pvalues, pvalueCutoff, x)
  {
    if cols == [] then []
    else MeltColumn(corr, pvalues, pvalueCutoff, corr.index, cols[0])
         + MeltColumns(corr, pvalues, pvalueCutoff, cols[1..])
  }

  function ByAbs(a: Record, b: Record): bool
  {
    a.absValue <= b.absValue
  }

  lemma ByAbsOrder()
    ensures TotalPreorder(ByAbs)
  {
  }

  /** `signi_corrs[signi_corrs['abs_value'] >= corr_cutoff]`. */
  function AtLeast(recs: seq<Record>, cutoff: real): (r: seq<Record>)
    ensures forall x :: x in r <==> x in recs && x.absValue >= cutoff
    ensures SortedBy(recs, ByAbs) ==> SortedBy(r, ByAbs)
  {
    if recs == [] then []
    else if recs[0].absValue >= cutoff then [recs[0]] + AtLeast(recs[1..], cutoff)
    else AtLeast(recs[1..], cutoff)
  }

  /** The record of a cell that `make_corr_graph` keeps: significant, in the
      frame's labels, and with |corr| at least the cutoff. */
  predicate Retained(corr: Frame, pvalues: Frame, pvalueCutoff: real, corrCutoff: real, x: Record)
  {
    x.row in corr.index && x.col in corr.columns &&
    SignificantRecord(corr, pvalues, pvalueCutoff, x) && x.absValue >= corrCutoff
  }

  /** The table `signi_corrs` that the edge loop walks: the retained cells
      in ascending order of |corr|. */
  function SignificantRecords(corr: Frame, pvalues: Frame, pvalueCutoff: real, corrCutoff: real)
    : (recs: seq<Record>)
    ensures SortedBy(recs, ByAbs)
    ensures forall x :: x in recs <==> Retained(corr, pvalues, pvalueCutoff, corrCutoff, x)
  {
    ByAbsOrder();
    var melted := MeltColumns(corr, pvalues, pvalueCutoff, corr.columns);
    var sorted := SortBy(melted, ByAbs);
    assert forall x :: x in sorted <==> x in melted by {
      assert forall x :: x in sorted <==> x in multiset(sorted);
      assert forall x :: x in melted <==> x in multiset(melted);
    }
    AtLeast(sorted, corrCutoff)
  }

  /** The row and column labels of the records (`np.unique(...)` of both). */
  function Endpoints(recs: seq<Record>): set<Node>
  {
    (set x | x in recs :: x.row) + (set x | x in recs :: x.col)
  }

  /** The record adds the edge {u, v}: its correlation is not negative and
      its labels are u and v in either orientation. */
  predicate Matches(x: Record, u: Node, v: Node)
  {
    x.value >= 0.0 && ((x.row == u && x.col == v) || (x.row == v && x.col == u))
  }

  /** The last record of `recs` that adds the edge {u, v}. */
  function LastMatch(recs: seq<Record>, u: Node, v: Node): Option<Record>
  {
    if recs == [] then None
    else if Matches(recs[|recs| - 1], u, v) then Some(recs[|recs| - 1])
    else LastMatch(recs[..|recs| - 1], u, v)
  }

  /** The edge loop of `make_corr_graph`, run over `recs` from `adj`. */
  function AddPositiveEdges(adj: Adj, recs: seq<Record>): Adj
  {
    if recs == [] then adj
    else
      var a := AddPositiveEdges(adj, recs[..|recs| - 1]);
      var x := recs[|recs| - 1];
      if x.value >= 0.0 then WithEdge(a, x.row, x.col, x.absValue) else a
  }

  /** One more turn of the edge loop. */
  lemma AddPositiveEdgesStep(adj: Adj, recs: seq<Record>, i: nat)
    requires i < |recs|
    ensures AddPositiveEdges(adj, recs[..i + 1]) ==
      if recs[i].value >= 0.0
      then WithEdge(AddPositiveEdges(adj, recs[..i]), recs[i].row, recs[i].col, recs[i].absValue)
      else AddPositiveEdges(adj, recs[..i])
  {
    assert recs[..i + 1][..i] == recs[..i];
  }

  /** In a list sorted by |corr| the last record that adds an edge carries
      the largest |corr| of all records adding it; there is none exactly
      when no record adds it. */
  lemma {:induction false} LastMatchIsLargest(recs: seq<Record>, u: Node, v: Node)
    requires SortedBy(recs, ByAbs)
    ensures LastMatch(recs, u, v).None? <==> forall y :: y in recs ==> !Matches(y, u, v)
    ensures LastMatch(recs, u, v).Some? ==>
      var x := LastMatch(recs, u, v).value;
      x in recs && Matches(x, u, v) &&
      forall y :: y in recs && Matches(y, u, v) ==> y.absValue <= x.absValue
  {
    if recs != [] {
      var init := recs[..|recs| - 1];
      assert recs == init + [recs[|recs| - 1]];
      LastMatchIsLargest(init, u, v);
      if Matches(recs[|recs| - 1], u, v) {
        forall y | y in recs && Matches(y, u, v)
          ensures y.absValue <= recs[|recs| - 1].absValue
        {
          var i :| 0 <= i < |recs| && recs[i] == y;
          if i < |recs| - 1 {
            assert ByAbs(recs[i], recs[|recs| - 1]);
          }
        }
      }
    }
  }

  /** The edge loop, started from edgeless nodes that include every label:
      the node set does not change, {u, v} becomes an edge exactly when some
      record adds it, and its weight is that of the last such record. */
  lemma AddPositiveEdgesFacts(adj: Adj, recs: seq<Record>)
    requires forall x :: x in recs ==> x.row != x.col && x.row in adj && x.col in adj
    requires forall u :: u in adj ==> adj[u] == map[]
    ensures var a := AddPositiveEdges(adj, recs);
      && a.Keys == adj.Keys
      && (forall u, v :: u in a ==> (v in a[u] <==> LastMatch(recs, u, v).Some?))
      && (forall u, v :: u in a && v in a[u] ==>
            a[u][v] == Some(LastMatch(recs, u, v).value.absValue))
  {
    var a := AddPositiveEdges(adj, recs);
    AddPositiveEdgesKeys(adj, recs);
    forall u, v | u in a
      ensures v in a[u] <==> LastMatch(recs, u, v).Some?
      ensures v in a[u] ==> a[u][v] == Some(LastMatch(recs, u, v).value.absValue)
    {
      AddPositiveEdgesAt(adj, recs, u, v);
    }
  }

  /** The edge loop adds no node to edgeless nodes that include every label. */
  lemma {:induction false} AddPositiveEdgesKeys(adj: Adj, recs: seq<Record>)
    requires forall x :: x in recs ==> x.row != x.col && x.row in adj && x.col in adj
    ensures AddPositiveEdges(adj, recs).Keys == adj.Keys
  {
    if recs != [] {
      var init := recs[..|recs| - 1];
      var x := recs[|recs| - 1];
      assert forall y :: y in init ==> y in recs;
      AddPositiveEdgesKeys(adj, init);
      if x.value >= 0.0 {
        WithEdgeAt(AddPositiveEdges(adj, init), x.row, x.col, x.absValue, x.row, x.col);
      }
    }
  }

  /** The entry (u, v) after the edge loop: present exactly when some record
      adds {u, v}, carrying the weight of the last one. */
  lemma {:induction false} AddPositiveEdgesAt(adj: Adj, recs: seq<Record>, u: Node, v: Node)
    requires forall x :: x in recs ==> x.row != x.col && x.row in adj && x.col in adj
    requires forall w :: w in adj ==> adj[w] == map[]
    requires u in adj
    ensures var a := AddPositiveEdges(adj, recs);
      && u in a
      && (v in a[u] <==> LastMatch(recs, u, v).Some?)
      && (v in a[u] ==> a[u][v] == Some(LastMatch(recs, u, v).value.absValue))
  {
    if recs != [] {
      var init := recs[..|recs| - 1];
      var x := recs[|recs| - 1];
      assert forall y :: y in init ==> y in recs;
      AddPositiveEdgesAt(adj, init, u, v);
      AddPositiveEdgesKeys(adj, init);
      var a := AddPositiveEdges(adj, init);
      if x.value >= 0.0 {
        WithEdgeAt(a, x.row, x.col, x.absValue, u, v);
      }
      assert LastMatch(recs, u, v) == if Matches(x, u, v) then Some(x) else LastMatch(init, u, v);
    }
  }

  /** What adding the edge {p, q} between two existing nodes does to the
      entry (u, v) of the adjacency. */
  lemma WithEdgeAt(a: Adj, p: Node, q: Node, w: real, u: Node, v: Node)
    requires p != q && p in a && q in a && u in a
    ensures var b := WithEdge(a, p, q, w);
      && b.Keys == a.Keys
      && (if (u == p && v == q) || (u == q && v == p) then v in b[u] && b[u][v] == Some(w)
          else (v in b[u] <==> v in a[u]) && (v in a[u] ==> b[u][v] == a[u][v]))
  {
    assert AddNodes(a, {p, q}) == a;
  }

  /** The two orientations of a cell that can give the edge {u, v}. */
  ghost predicate PositiveCell(corr: Frame, pvalues: Frame, pvalueCutoff: real, corrCutoff: real,
                               r: Node, c: Node)
  {
    r in corr.index && c in corr.columns && Significant(corr, pvalues, pvalueCutoff, r, c) &&
    corr.cells[(r, c)] >= 0.0 && Abs(corr.cells[(r, c)]) >= corrCutoff
  }

  /** {u, v} is an edge of the layer graph: the cell (u, v) or the cell
      (v, u) is significant, has |corr| at least the cutoff and corr >= 0. */
  ghost predicate Linked(corr: Frame, pvalues: Frame, pvalueCutoff: real, corrCutoff: real,
                         u: Node, v: Node)
  {
    PositiveCell(corr, pvalues, pvalueCutoff, corrCutoff, u, v) ||
    PositiveCell(corr, pvalues, pvalueCutoff, corrCutoff, v, u)
  }

  /** The weight of the edge {u, v}: the larger |corr| of its qualifying cells. */
  ghost function PairWeight(corr: Frame, pvalues: Frame, pvalueCutoff: real, corrCutoff: real,
                            u: Node, v: Node): real
    requires Linked(corr, pvalues, pvalueCutoff, corrCutoff, u, v)
  {
    var uv := PositiveCell(corr, pvalues, pvalueCutoff, corrCutoff, u, v);
    var vu := PositiveCell(corr, pvalues, pvalueCutoff, corrCutoff, v, u);
    if uv && vu then Max(Abs(corr.cells[(u, v)]), Abs(corr.cells[(v, u)]))
    else if uv then Abs(corr.cells[(u, v)])
    else Abs(corr.cells[(v, u)])
  }

  /** The nodes of the layer graph: the labels that have an edge. */
  ghost function LinkedNodes(corr: Frame, pvalues: Frame, pvalueCutoff: real, corrCutoff: real)
    : set<Node>
  {
    set u, v | u in corr.index + corr.columns && v in corr.index + corr.columns &&
               Linked(corr, pvalues, pvalueCutoff, corrCutoff, u, v) :: u
  }

  /** The layer graph `make_corr_graph` is meant to build, stated cell by cell. */
  ghost function CorrGraphAdj(corr: Frame, pvalues: Frame, pvalueCutoff: real, corrCutoff: real)
    : Adj
  {
    var nodes := LinkedNodes(corr, pvalues, pvalueCutoff, corrCutoff);
    map u | u in nodes ::
      map v | v in nodes && Linked(corr, pvalues, pvalueCutoff, corrCutoff, u, v) ::
        Some(PairWeight(corr, pvalues, pvalueCutoff, corrCutoff, u, v))
  }

  /** Every edge carries a weight of at least `cutoff`. */
  ghost predicate WeightsAtLeast(adj: Adj, cutoff: real)
  {
    forall u, v :: u in adj && v in adj[u] ==> adj[u][v].Some? && adj[u][v].value >= cutoff
  }

  /** Links are symmetric, never loops, and carry a weight at least the
      cutoff that does not depend on the orientation. */
  lemma LinkedPair(corr: Frame, pvalues: Frame, pvalueCutoff: real, corrCutoff: real,
                   u: Node, v: Node)
    requires NoSelfCells(corr)
    requires Linked(corr, pvalues, pvalueCutoff, corrCutoff, u, v)
    ensures Linked(corr, pvalues, pvalueCutoff, corrCutoff, v, u) && u != v
    ensures PairWeight(corr, pvalues, pvalueCutoff, corrCutoff, u, v)
         == PairWeight(corr, pvalues, pvalueCutoff, corrCutoff, v, u)
    ensures PairWeight(corr, pvalues, pvalueCutoff, corrCutoff, u, v) >= corrCutoff
    ensures u in LinkedNodes(corr, pvalues, pvalueCutoff, corrCutoff)
    ensures v in LinkedNodes(corr, pvalues, pvalueCutoff, corrCutoff)
  {
    assert (u, v) in corr.cells || (v, u) in corr.cells;
    assert u in corr.index + corr.columns && v in corr.index + corr.columns;
  }

  /** An edge of the layer graph is present both ways with one weight, is
      not a loop, and weighs at least the correlation cutoff. */
  lemma CorrGraphEdge(corr: Frame, pvalues: Frame, pvalueCutoff: real, corrCutoff: real,
                      u: Node, v: Node)
    requires NoSelfCells(corr)
    requires var g := CorrGraphAdj(corr, pvalues, pvalueCutoff, corrCutoff);
      u in g && v in g[u]
    ensures var g := CorrGraphAdj(corr, pvalues, pvalueCutoff, corrCutoff);
      && v in g && u in g[v] && u != v && g[v][u] == g[u][v]
      && g[u][v].Some? && g[u][v].value >= corrCutoff
  {
    LinkedPair(corr, pvalues, pvalueCutoff, corrCutoff, u, v);
  }

  /** The layer graph is simple, and each node has an edge whose weight is
      at least the correlation cutoff. */
  lemma CorrGraphSimple(corr: Frame, pvalues: Frame, pvalueCutoff: real, corrCutoff: real)
    requires NoSelfCells(corr)
    ensures var g := CorrGraphAdj(corr, pvalues, pvalueCutoff, corrCutoff);
      && Simple(g)
      && (forall u :: u in g ==> |g[u]| >= 1)
      && WeightsAtLeast(g, corrCutoff)
  {
    CorrGraphSymmetric(corr, pvalues, pvalueCutoff, corrCutoff);
    CorrGraphWeights(corr, pvalues, pvalueCutoff, corrCutoff);
    CorrGraphDegrees(corr, pvalues, pvalueCutoff, corrCutoff);
  }

  lemma CorrGraphSymmetric(corr: Frame, pvalues: Frame, pvalueCutoff: real, corrCutoff: real)
    requires NoSelfCells(corr)
    ensures Simple(CorrGraphAdj(corr, pvalues, pvalueCutoff, corrCutoff))
  {
    var g: Adj := CorrGraphAdj(corr, pvalues, pvalueCutoff, corrCutoff);
    forall u: Node, v: Node | u in g && v in g[u]
      ensures v in g && u in g[v] && u != v && g[v][u] == g[u][v]
    {
      CorrGraphEdge(corr, pvalues, pvalueCutoff, corrCutoff, u, v);
    }
  }

  lemma CorrGraphWeights(corr: Frame, pvalues: Frame, pvalueCutoff: real, corrCutoff: real)
    requires NoSelfCells(corr)
    ensures WeightsAtLeast(CorrGraphAdj(corr, pvalues, pvalueCutoff, corrCutoff), corrCutoff)
  {
    var g: Adj := CorrGraphAdj(corr, pvalues, pvalueCutoff, corrCutoff);
    forall u: Node, v: Node | u in g && v in g[u]
      ensures g[u][v].Some? && g[u][v].value >= corrCutoff
    {
      CorrGraphEdge(corr, pvalues, pvalueCutoff, corrCutoff, u, v);
    }
  }

  lemma CorrGraphDegrees(corr: Frame, pvalues: Frame, pvalueCutoff: real, corrCutoff: real)
    requires NoSelfCells(corr)
    ensures var g := CorrGraphAdj(corr, pvalues, pvalueCutoff, corrCutoff);
      forall u :: u in g ==> |g[u]| >= 1
  {
    var g: Adj := CorrGraphAdj(corr, pvalues, pvalueCutoff, corrCutoff);
    forall u | u in g
      ensures |g[u]| >= 1
    {
      var v :| v in corr.index + corr.columns && Linked(corr, pvalues, pvalueCutoff, corrCutoff, u, v);
      LinkedPair(corr, pvalues, pvalueCutoff, corrCutoff, u, v);
      assert v in g[u];
    }
  }

  /** The record list and the cell-by-cell statement agree: a record adds
      {u, v} exactly when {u, v} is linked, and the last one carries the
      pair's weight. */
  lemma LastMatchIsPairWeight(corr: Frame, pvalues: Frame, pvalueCutoff: real, corrCutoff: real,
                              recs: seq<Record>, u: Node, v: Node)
    requires SortedBy(recs, ByAbs)
    requires forall x :: x in recs <==> Retained(corr, pvalues, pvalueCutoff, corrCutoff, x)
    ensures LastMatch(recs, u, v).Some? <==> Linked(corr, pvalues, pvalueCutoff, corrCutoff, u, v)
    ensures LastMatch(recs, u, v).Some? ==>
      LastMatch(recs, u, v).value.absValue == PairWeight(corr, pvalues, pvalueCutoff, corrCutoff, u, v)
  {
    LastMatchIsLargest(recs, u, v);
    var uv := PositiveCell(corr, pvalues, pvalueCutoff, corrCutoff, u, v);
    var vu := PositiveCell(corr, pvalues, pvalueCutoff, corrCutoff, v, u);
    if uv {
      var c := corr.cells[(u, v)];
      assert Retained(corr, pvalues, pvalueCutoff, corrCutoff, Record(u, v, c, Abs(c)));
      assert Matches(Record(u, v, c, Abs(c)), u, v);
    }
    if vu {
      var c := corr.cells[(v, u)];
      assert Retained(corr, pvalues, pvalueCutoff, corrCutoff, Record(v, u, c, Abs(c)));
      assert Matches(Record(v, u, c, Abs(c)), u, v);
    }
    if LastMatch(recs, u, v).Some? {
      var x := LastMatch(recs, u, v).value;
      assert Retained(corr, pvalues, pvalueCutoff, corrCutoff, x);
    }
  }

  /** After the edge loop, the nodes are the labels of the retained cells,
      {u, v} is an edge exactly when it is linked, and it carries the
      pair's weight. */
  lemma {:induction false} BuiltEdges(corr: Frame, pvalues: Frame, pvalueCutoff: real,
                                      corrCutoff: real, recs: seq<Record>)
    requires NoSelfCells(corr)
    requires recs == SignificantRecords(corr, pvalues, pvalueCutoff, corrCutoff)
    ensures var built := BuiltGraph(recs);
      && built.Keys == Endpoints(recs)
      && (forall u, v :: u in built ==>
            (v in built[u] <==> Linked(corr, pvalues, pvalueCutoff, corrCutoff, u, v)))
      && (forall u, v :: u in built && v in built[u] ==>
            built[u][v] == Some(PairWeight(corr, pvalues, pvalueCutoff, corrCutoff, u, v)))
      && (forall u, v :: Linked(corr, pvalues, pvalueCutoff, corrCutoff, u, v) ==> u in built)
  {
    assert forall x :: x in recs ==> (x.row, x.col) in corr.cells;
    var a0 := AddNodes(map[], Endpoints(recs));
    var built := BuiltGraph(recs);
    AddPositiveEdgesFacts(a0, recs);
    forall u, v | u in built
      ensures v in built[u] <==> Linked(corr, pvalues, pvalueCutoff, corrCutoff, u, v)
      ensures v in built[u] ==>
        built[u][v] == Some(PairWeight(corr, pvalues, pvalueCutoff, corrCutoff, u, v))
    {
      LastMatchIsPairWeight(corr, pvalues, pvalueCutoff, corrCutoff, recs, u, v);
    }
    forall u, v | Linked(corr, pvalues, pvalueCutoff, corrCutoff, u, v)
      ensures u in built
    {
      if PositiveCell(corr, pvalues, pvalueCutoff, corrCutoff, u, v) {
        var c := corr.cells[(u, v)];
        assert Retained(corr, pvalues, pvalueCutoff, corrCutoff, Record(u, v, c, Abs(c)));
      } else {
        var c := corr.cells[(v, u)];
        assert Retained(corr, pvalues, pvalueCutoff, corrCutoff, Record(v, u, c, Abs(c)));
      }
    }
  }

  /** The graph the edge loop builds, before its isolates are removed. */
  function BuiltGraph(recs: seq<Record>): Adj
  {
    AddPositiveEdges(AddNodes(map[], Endpoints(recs)), recs)
  }

  /** Removing the isolates of the built graph leaves the linked nodes. */
  lemma ConstructedNodes(corr: Frame, pvalues: Frame, pvalueCutoff: real, corrCutoff: real,
                         recs: seq<Record>, u: Node)
    requires NoSelfCells(corr)
    requires recs == SignificantRecords(corr, pvalues, pvalueCutoff, corrCutoff)
    ensures var built := BuiltGraph(recs);
      u in RemoveNodes(built, IsolatesOf(built)) <==>
      u in CorrGraphAdj(corr, pvalues, pvalueCutoff, corrCutoff)
  {
    BuiltEdges(corr, pvalues, pvalueCutoff, corrCutoff, recs);
    var built := BuiltGraph(recs);
    if u in built && |built[u]| != 0 {
      var v :| v in built[u];
      LinkedPair(corr, pvalues, pvalueCutoff, corrCutoff, u, v);
    }
    if u in LinkedNodes(corr, pvalues, pvalueCutoff, corrCutoff) {
      var v :| v in corr.index + corr.columns && Linked(corr, pvalues, pvalueCutoff, corrCutoff, u, v);
      assert v in built[u];
    }
  }

  /** A node kept from the built graph has exactly its linked neighbours,
      with the pairs' weights. */
  lemma ConstructedNeighbours(corr: Frame, pvalues: Frame, pvalueCutoff: real, corrCutoff: real,
                              recs: seq<Record>, u: Node)
    requires NoSelfCells(corr)
    requires recs == SignificantRecords(corr, pvalues, pvalueCutoff, corrCutoff)
    requires var built := BuiltGraph(recs);
      u in RemoveNodes(built, IsolatesOf(built)) &&
      u in CorrGraphAdj(corr, pvalues, pvalueCutoff, corrCutoff)
    ensures var built := BuiltGraph(recs);
      RemoveNodes(built, IsolatesOf(built))[u] == CorrGraphAdj(corr, pvalues, pvalueCutoff, corrCutoff)[u]
  {
    var built := BuiltGraph(recs);
    var ru := RemoveNodes(built, IsolatesOf(built))[u];
    var gu := CorrGraphAdj(corr, pvalues, pvalueCutoff, corrCutoff)[u];
    forall v
      ensures v in ru <==> v in gu
      ensures v in ru ==> ru[v] == gu[v]
    {
      ConstructedEdge(corr, pvalues, pvalueCutoff, corrCutoff, recs, u, v);
    }
    SameEntries(ru, gu);
  }

  /** Two adjacencies with the same nodes and neighbourhoods are equal. */
  lemma SameAdj(a: Adj, b: Adj)
    requires forall u :: u in a <==> u in b
    requires forall u :: u in a ==> a[u] == b[u]
    ensures a == b
  {
    assert a.Keys == b.Keys;
  }

  /** Two neighbourhoods with the same entries are equal. */
  lemma SameEntries(a: map<Node, Option<real>>, b: map<Node, Option<real>>)
    requires forall v :: v in a <==> v in b
    requires forall v :: v in a ==> a[v] == b[v]
    ensures a == b
  {
    assert a.Keys == b.Keys;
  }

  lemma ConstructedEdge(corr: Frame, pvalues: Frame, pvalueCutoff: real, corrCutoff: real,
                        recs: seq<Record>, u: Node, v: Node)
    requires NoSelfCells(corr)
    requires recs == SignificantRecords(corr, pvalues, pvalueCutoff, corrCutoff)
    requires var built := BuiltGraph(recs);
      u in RemoveNodes(built, IsolatesOf(built)) &&
      u in CorrGraphAdj(corr, pvalues, pvalueCutoff, corrCutoff)
    ensures var built := BuiltGraph(recs);
      var ru := RemoveNodes(built, IsolatesOf(built))[u];
      var gu := CorrGraphAdj(corr, pvalues, pvalueCutoff, corrCutoff)[u];
      (v in ru <==> v in gu) && (v in ru ==> ru[v] == gu[v])
  {
    BuiltEdges(corr, pvalues, pvalueCutoff, corrCutoff, recs);
    var built := BuiltGraph(recs);
    if v in built[u] {
      LinkedPair(corr, pvalues, pvalueCutoff, corrCutoff, u, v);
      assert u in built[v];
    }
  }

  /** The graph the imperative construction ends with is the layer graph. */
  lemma CorrGraphConstruction(corr: Frame, pvalues: Frame, pvalueCutoff: real,
                              corrCutoff: real, recs: seq<Record>)
    requires NoSelfCells(corr)
    requires recs == SignificantRecords(corr, pvalues, pvalueCutoff, corrCutoff)
    ensures var built := BuiltGraph(recs);
      RemoveNodes(built, IsolatesOf(built)) == CorrGraphAdj(corr, pvalues, pvalueCutoff, corrCutoff)
  {
    var built := BuiltGraph(recs);
    var r := RemoveNodes(built, IsolatesOf(built));
    var g: Adj := CorrGraphAdj(corr, pvalues, pvalueCutoff, corrCutoff);
    forall u
      ensures u in r <==> u in g
    {
      ConstructedNodes(corr, pvalues, pvalueCutoff, corrCutoff, recs, u);
    }
    forall u | u in r
      ensures r[u] == g[u]
    {
      ConstructedNeighbours(corr, pvalues, pvalueCutoff, corrCutoff, recs, u);
    }
    SameAdj(r, g);
  }

  /** `make_corr_graph(corr, pvalues, pvalue_cutoff, corr_cutoff)`: walks the
      retained cells in ascending |corr|, adds an edge weighted |corr| for
      each cell with corr >= 0 (a later, larger weight replacing an earlier
      one), then removes the nodes left without an edge. */
  method MakeCorrGraph(corr: Frame, pvalues: Frame, pvalueCutoff: real := 0.05, corrCutoff: real := 0.6)
    returns (g: Graph)
    requires NoSelfCells(corr)
    ensures fresh(g) && g.IsSimple()
    ensures g.adj == CorrGraphAdj(corr, pvalues, pvalueCutoff, corrCutoff)
  {
    var signiCorrs := SignificantRecords(corr, pvalues, pvalueCutoff, corrCutoff);
    CorrGraphConstruction(corr, pvalues, pvalueCutoff, corrCutoff, signiCorrs);
    g := new Graph();
    g.AddNodesFrom(Endpoints(signiCorrs));
    var nodesOnly := g.adj;
    assert nodesOnly == AddNodes(map[], Endpoints(signiCorrs));
    for i := 0 to |signiCorrs|
      invariant g.adj == AddPositiveEdges(nodesOnly, signiCorrs[..i])
    {
      AddPositiveEdgesStep(nodesOnly, signiCorrs, i);
      // only the positive correlations become edges
      if signiCorrs[i].value >= 0.0 {
        g.AddEdge(signiCorrs[i].row, signiCorrs[i].col, signiCorrs[i].absValue);
      }
    }
    assert signiCorrs[..|signiCorrs|] == signiCorrs;
    g.RemoveNodesFrom(g.Isolates());
    CorrGraphSimple(corr, pvalues, pvalueCutoff, corrCutoff);
  }

  // ---------------------------------------------------------------------
  // make_intersection_graph
  // ---------------------------------------------------------------------

  /** `nx.intersection_all` of two graphs: the common nodes and the common
      edges, without edge attributes. */
  function Intersect2(a: Adj, b: Adj): Adj
  {
    map u | u in a && u in b :: map v | v in a[u] && v in b[u] :: None
  }

  /** The graph itself without edge attributes. */
  function StripWeights(a: Adj): Adj
  {
    map u | u in a :: map v | v in a[u] :: None
  }

  /** `nx.intersection_all(graphs)` for a non-empty list. */
  function IntersectAll(adjs: seq<Adj>): Adj
    requires |adjs| > 0
  {
    if |adjs| == 1 then StripWeights(adjs[0])
    else Intersect2(IntersectAll(adjs[..|adjs| - 1]), adjs[|adjs| - 1])
  }

  /** `u` is a node of every graph of the list. */
  ghost predicate InAll(adjs: seq<Adj>, u: Node)
  {
    forall k :: 0 <= k < |adjs| ==> u in adjs[k]
  }

  /** {u, v} is an edge of every graph of the list. */
  ghost predicate EdgeInAll(adjs: seq<Adj>, u: Node, v: Node)
  {
    forall k :: 0 <= k < |adjs| ==> u in adjs[k] && v in adjs[k][u]
  }

  lemma InAllSnoc(adjs: seq<Adj>, u: Node, v: Node)
    requires |adjs| > 1
    ensures var init, last := adjs[..|adjs| - 1], adjs[|adjs| - 1];
      && (InAll(adjs, u) <==> InAll(init, u) && u in last)
      && (EdgeInAll(adjs, u, v) <==> EdgeInAll(init, u, v) && u in last && v in last[u])
  {
    var init := adjs[..|adjs| - 1];
    assert forall k :: 0 <= k < |init| ==> init[k] == adjs[k];
  }

  /** The intersection keeps exactly the nodes present in every graph and
      the edges present in every graph, and carries no weights. */
  lemma {:induction false} IntersectAllFacts(adjs: seq<Adj>)
    requires |adjs| > 0
    ensures var r := IntersectAll(adjs);
      && (forall u :: u in r <==> InAll(adjs, u))
      && (forall u, v :: u in r ==> (v in r[u] <==> EdgeInAll(adjs, u, v)))
      && (forall u, v :: u in r && v in r[u] ==> r[u][v] == None)
  {
    if |adjs| == 1 {
      forall u, v
        ensures InAll(adjs, u) <==> u in adjs[0]
        ensures EdgeInAll(adjs, u, v) <==> u in adjs[0] && v in adjs[0][u]
      {
      }
    } else {
      var init := adjs[..|adjs| - 1];
      IntersectAllFacts(init);
      var r := IntersectAll(adjs);
      assert r == Intersect2(IntersectAll(init), adjs[|adjs| - 1]);
      forall u
        ensures u in r <==> InAll(adjs, u)
      {
        InAllSnoc(adjs, u, u);
      }
      forall u, v | u in r
        ensures v in r[u] <==> EdgeInAll(adjs, u, v)
      {
        InAllSnoc(adjs, u, v);
      }
    }
  }

  /** In a list of simple graphs, an edge present in all of them is present
      in all of them in the other direction, with both ends nodes of all. */
  lemma EdgeInAllSymmetric(adjs: seq<Adj>, u: Node, v: Node)
    requires forall k :: 0 <= k < |adjs| ==> Simple(adjs[k])
    requires |adjs| > 0 && EdgeInAll(adjs, u, v)
    ensures InAll(adjs, v) && EdgeInAll(adjs, v, u) && u != v
  {
    forall k | 0 <= k < |adjs|
      ensures v in adjs[k] && u in adjs[k][v]
    {
      assert u in adjs[k] && v in adjs[k][u];
    }
    assert u in adjs[0] && v in adjs[0][u];
  }

  /** The intersection of simple graphs is simple. */
  lemma {:induction false} IntersectAllSimple(adjs: seq<Adj>)
    requires |adjs| > 0
    requires forall k :: 0 <= k < |adjs| ==> Simple(adjs[k])
    ensures Simple(IntersectAll(adjs))
  {
    if |adjs| == 1 {
      StripWeightsSimple(adjs[0]);
    } else {
      var n := |adjs| - 1;
      IntersectAllSimple(adjs[..n]);
      Intersect2Simple(IntersectAll(adjs[..n]), adjs[n]);
    }
  }

  lemma StripWeightsSimple(a: Adj)
    requires Simple(a)
    ensures Simple(StripWeights(a))
  {
  }

  /** The common edges of two simple graphs form a simple graph. */
  lemma Intersect2Simple(a: Adj, b: Adj)
    requires Simple(a) && Simple(b)
    ensures Simple(Intersect2(a, b))
  {
  }

  /** Lists with the same graphs agree on membership in all of them. */
  lemma SameLayersAgree(a: seq<Adj>, b: seq<Adj>, u: Node, v: Node)
    requires Elements(a) == Elements(b)
    ensures InAll(a, u) <==> InAll(b, u)
    ensures EdgeInAll(a, u, v) <==> EdgeInAll(b, u, v)
  {
    forall k | 0 <= k < |b|
      ensures exists j :: 0 <= j < |a| && a[j] == b[k]
    {
      assert b[k] in Elements(a);
    }
    forall k | 0 <= k < |a|
      ensures exists j :: 0 <= j < |b| && b[j] == a[k]
    {
      assert a[k] in Elements(b);
    }
  }

  /** The intersection depends only on which graphs are intersected, not on
      their order or repetition. */
  lemma IntersectAllSameLayers(a: seq<Adj>, b: seq<Adj>)
    requires |a| > 0 && |b| > 0
    requires Elements(a) == Elements(b)
    ensures IntersectAll(a) == IntersectAll(b)
  {
    IntersectAllFacts(a);
    IntersectAllFacts(b);
    var ra, rb := IntersectAll(a), IntersectAll(b);
    forall u
      ensures u in ra <==> u in rb
    {
      SameLayersAgree(a, b, u, u);
    }
    forall u | u in ra
      ensures ra[u] == rb[u]
    {
      forall v
        ensures v in ra[u] <==> v in rb[u]
        ensures v in ra[u] ==> ra[u][v] == rb[u][v]
      {
        SameLayersAgree(a, b, u, v);
      }
      SameEntries(ra[u], rb[u]);
    }
    SameAdj(ra, rb);
  }

  /** A graph intersected with itself, any number of times, is itself
      without its weights. */
  lemma IntersectAllRepeated(a: seq<Adj>)
    requires |a| > 0
    requires forall k :: 0 <= k < |a| ==> a[k] == a[0]
    ensures IntersectAll(a) == StripWeights(a[0])
  {
    IntersectAllFacts(a);
    var r, s := IntersectAll(a), StripWeights(a[0]);
    forall u
      ensures u in r <==> u in s
    {
      assert InAll(a, u) <==> u in a[0];
    }
    forall u | u in r
      ensures r[u] == s[u]
    {
      forall v
        ensures v in r[u] <==> v in s[u]
      {
        assert EdgeInAll(a, u, v) <==> v in a[0][u];
      }
      SameEntries(r[u], s[u]);
    }
    SameAdj(r, s);
  }

  /** The consensus graph `make_intersection_graph` returns for the given
      layer graphs. */
  ghost function ConsensusAdj(layers: seq<Adj>): Adj
    requires |layers| > 0
  {
    WithoutPairIsolates(IntersectAll(layers))
  }

  /** A node is in the consensus graph exactly when it is in every layer
      graph and, in their intersection, is neither isolated nor one end of an
      isolated edge; it then keeps every edge common to all layers, and has
      at least one. */
  lemma ConsensusFacts(layers: seq<Adj>)
    requires |layers| > 0
    requires forall k :: 0 <= k < |layers| ==> Simple(layers[k])
    ensures var inter := IntersectAll(layers);
      var c := ConsensusAdj(layers);
      && Simple(c)
      && (forall u :: u in inter <==> InAll(layers, u))
      && (forall u :: u in c <==> u in inter && |inter[u]| != 0 && !InIsolatedPair(inter, u))
      && (forall u, v :: u in c ==> (v in c[u] <==> EdgeInAll(layers, u, v)))
      && (forall u :: u in c ==> |c[u]| >= 1)
  {
    IntersectAllFacts(layers);
    IntersectAllSimple(layers);
    PairIsolatesRemoved(IntersectAll(layers));
  }

  // ---------------------------------------------------------------------
  // Community labels
  // ---------------------------------------------------------------------

  /** The communities are pairwise disjoint, non-empty, and cover `nodes`:
      what Louvain community detection returns for a graph. */
  ghost predicate IsPartition(communities: seq<set<Node>>, nodes: set<Node>)
  {
    && Members(communities) == nodes
    && (forall i :: 0 <= i < |communities| ==> communities[i] != {})
    && (forall i, j :: 0 <= i < j < |communities| ==> communities[i] !! communities[j])
  }

  /** The biomolecules of all communities. */
  ghost function Members(communities: seq<set<Node>>): set<Node>
  {
    set i, b | 0 <= i < |communities| && b in communities[i] :: b
  }

  /** What the labelling loop produces: `commTrans[i]` lists the i-th
      community without repetition, and a biomolecule's label is the last
      community that holds it. */
  ghost predicate Labelling(communities: seq<set<Node>>, commTrans: map<nat, seq<Node>>,
                            transComm: map<Node, nat>)
  {
    && (forall i: nat :: i in commTrans <==> i < |communities|)
    && (forall i: nat :: i < |communities| ==>
          Elements(commTrans[i]) == communities[i] && NoDuplicates(commTrans[i]))
    && transComm.Keys == Members(communities)
    && (forall b :: b in transComm ==>
          transComm[b] < |communities| && b in communities[transComm[b]] &&
          forall j :: transComm[b] < j < |communities| ==> b !in communities[j])
  }

  /** `list(community)`: the members of a set, each once, in some order. */
  method ListOf(s: set<Node>) returns (xs: seq<Node>)
    ensures Elements(xs) == s && NoDuplicates(xs)
  {
    xs := [];
    var rest := s;
    while rest != {}
      invariant rest <= s && Elements(xs) == s - rest && NoDuplicates(xs)
      decreases rest
    {
      var x :| x in rest;
      assert Elements(xs + [x]) == Elements(xs) + {x};
      assert x !in xs;
      xs := xs + [x];
      rest := rest - {x};
    }
  }

  /** The labelling loop of `make_intersection_graph`: the i-th community
      gets label i, `comm_trans[i]` lists its members and `trans_comm` maps
      each member to i, a later community overwriting an earlier label. */
  method LabelCommunities(communities: seq<set<Node>>)
    returns (commTrans: map<nat, seq<Node>>, transComm: map<Node, nat>)
    ensures Labelling(communities, commTrans, transComm)
  {
    commTrans := map[];
    transComm := map[];
    var count := 0;
    while count < |communities|
      invariant count <= |communities|
      invariant Labelling(communities[..count], commTrans, transComm)
    {
      var community := communities[count];
      var members := ListOf(community);
      ghost var before := transComm;
      ghost var listed := commTrans;
      commTrans := commTrans[count := members];
      // `for biomolecule in community` visits the members in the order `list` gave
      for j := 0 to |members|
        invariant forall b :: b in transComm <==> b in before || b in members[..j]
        invariant forall b :: b in transComm ==>
          transComm[b] == if b in members[..j] then count else before[b]
      {
        transComm := transComm[members[j] := count];
      }
      assert members[..|members|] == members;
      LabellingStep(communities, count, listed, commTrans, before, transComm);
      count := count + 1;
    }
    assert communities[..count] == communities;
  }

  /** One round of the labelling loop extends the labelling to one more
      community. */
  lemma LabellingStep(communities: seq<set<Node>>, count: nat,
                      listed: map<nat, seq<Node>>, commTrans: map<nat, seq<Node>>,
                      before: map<Node, nat>, after: map<Node, nat>)
    requires count < |communities|
    requires Labelling(communities[..count], listed, before)
    requires count in commTrans && commTrans == listed[count := commTrans[count]]
    requires Elements(commTrans[count]) == communities[count] && NoDuplicates(commTrans[count])
    requires forall b :: b in after <==> b in before || b in communities[count]
    requires forall b :: b in after ==>
      after[b] == if b in communities[count] then count else before[b]
    ensures Labelling(communities[..count + 1], commTrans, after)
  {
    var prev, cs := communities[..count], communities[..count + 1];
    assert forall i :: 0 <= i < count ==> cs[i] == prev[i];
    assert cs[count] == communities[count];
    forall i: nat | i < count + 1
      ensures Elements(commTrans[i]) == cs[i] && NoDuplicates(commTrans[i])
    {
      if i < count {
        assert commTrans[i] == listed[i];
      }
    }
    StepMembers(communities, count, before, after);
    forall b | b in after
      ensures after[b] < |cs| && b in cs[after[b]]
      ensures forall j :: after[b] < j < |cs| ==> b !in cs[j]
    {
      StepLabel(communities, count, listed, before, after, b);
    }
  }

  lemma StepMembers(communities: seq<set<Node>>, count: nat, before: map<Node, nat>,
                    after: map<Node, nat>)
    requires count < |communities|
    requires before.Keys == Members(communities[..count])
    requires forall b :: b in after <==> b in before || b in communities[count]
    ensures after.Keys == Members(communities[..count + 1])
  {
    var prev, cs := communities[..count], communities[..count + 1];
    forall b
      ensures b in after <==> b in Members(cs)
    {
      if b in before {
        var i :| 0 <= i < count && b in prev[i];
        assert b in cs[i];
      }
      if b in communities[count] {
        assert b in cs[count];
      }
      if b in Members(cs) {
        var i :| 0 <= i < |cs| && b in cs[i];
        if i < count {
          assert b in prev[i];
        }
      }
    }
  }

  lemma StepLabel(communities: seq<set<Node>>, count: nat, listed: map<nat, seq<Node>>,
                  before: map<Node, nat>, after: map<Node, nat>, b: Node)
    requires count < |communities|
    requires Labelling(communities[..count], listed, before)
    requires b in after && (b in before || b in communities[count])
    requires after[b] == if b in communities[count] then count else before[b]
    ensures var cs := communities[..count + 1];
      after[b] < |cs| && b in cs[after[b]] &&
      forall j :: after[b] < j < |cs| ==> b !in cs[j]
  {
    var prev, cs := communities[..count], communities[..count + 1];
    if b !in communities[count] {
      assert b in before;
      assert forall j :: before[b] < j < count ==> b !in prev[j] && cs[j] == prev[j];
      assert cs[before[b]] == prev[before[b]];
    }
  }

  /** For a partition (Louvain's output) every node gets exactly one label,
      the index of its own community, so every label is in use and
      `comm_trans` is the inverse of `trans_comm`. */
  lemma PartitionLabels(communities: seq<set<Node>>, nodes: set<Node>,
                        commTrans: map<nat, seq<Node>>, transComm: map<Node, nat>)
    requires IsPartition(communities, nodes)
    requires Labelling(communities, commTrans, transComm)
    ensures transComm.Keys == nodes
    ensures forall b, i :: 0 <= i < |communities| && b in communities[i] ==> transComm[b] == i
    ensures forall i :: 0 <= i < |communities| ==> i in transComm.Values
    ensures forall b :: b in transComm ==> b in commTrans[transComm[b]]
  {
    forall b, i | 0 <= i < |communities| && b in communities[i]
      ensures b in transComm && transComm[b] == i
    {
      OwnLabel(communities, nodes, commTrans, transComm, b, i);
    }
    forall i | 0 <= i < |communities|
      ensures i in transComm.Values
    {
      var b :| b in communities[i];
      assert transComm[b] == i;
    }
  }

  lemma OwnLabel(communities: seq<set<Node>>, nodes: set<Node>,
                 commTrans: map<nat, seq<Node>>, transComm: map<Node, nat>, b: Node, i: int)
    requires IsPartition(communities, nodes)
    requires Labelling(communities, commTrans, transComm)
    requires 0 <= i < |communities| && b in communities[i]
    ensures b in transComm && transComm[b] == i
  {
    assert b in communities[transComm[b]];
  }

  /** The error `make_intersection_graph` raises (from `nx.intersection_all`). */
  datatype GraphError = ValueError(message: string)

  /** The intersection graph and both label maps. */
  datatype Consensus = Consensus(graph: Graph, transComm: map<Node, nat>, commTrans: map<nat, seq<Node>>)

  /** The layer graphs that `make_intersection_graph` builds from the paired
      matrices (`zip` stops at the shorter list). */
  ghost function LayerAdjs(corrs: seq<Frame>, pvalues: seq<Frame>, pvalueCutoff: real,
                           corrCutoff: real): (layers: seq<Adj>)
    ensures |layers| == if |corrs| < |pvalues| then |corrs| else |pvalues|
  {
    var n := if |corrs| < |pvalues| then |corrs| else |pvalues|;
    seq(n, k requires 0 <= k < n => CorrGraphAdj(corrs[k], pvalues[k], pvalueCutoff, corrCutoff))
  }

  /** Every layer graph is simple. */
  lemma LayersSimple(corrs: seq<Frame>, pvalues: seq<Frame>, pvalueCutoff: real, corrCutoff: real)
    requires forall k :: 0 <= k < |corrs| && k < |pvalues| ==> NoSelfCells(corrs[k])
    ensures var layers := LayerAdjs(corrs, pvalues, pvalueCutoff, corrCutoff);
      forall k :: 0 <= k < |layers| ==> Simple(layers[k])
  {
    var layers := LayerAdjs(corrs, pvalues, pvalueCutoff, corrCutoff);
    forall k | 0 <= k < |layers|
      ensures Simple(layers[k])
    {
      CorrGraphSimple(corrs[k], pvalues[k], pvalueCutoff, corrCutoff);
    }
  }

  /** `make_intersection_graph(corrs, pvalues, pvalue_cutoff, corr_cutoff)`:
      one layer graph per (corr, pvalues) pair, their intersection with
      isolated nodes and isolated pairs pruned, and the labels of the
      communities `louvain` finds in it. `nx.intersection_all` raises
      ValueError when there is no layer. */
  method MakeIntersectionGraph(corrs: seq<Frame>, pvalues: seq<Frame>, louvain: Adj -> seq<set<Node>>,
                               pvalueCutoff: real := 0.05, corrCutoff: real := 0.6)
    returns (r: Result<Consensus, GraphError>)
    requires forall k :: 0 <= k < |corrs| && k < |pvalues| ==> NoSelfCells(corrs[k])
    ensures r.Failure? <==> |corrs| == 0 || |pvalues| == 0
    ensures r.Failure? ==> r == Failure(ValueError("cannot apply intersection_all to an empty list"))
    ensures r.Success? ==>
      var layers := LayerAdjs(corrs, pvalues, pvalueCutoff, corrCutoff);
      var consensus := ConsensusAdj(layers);
      && fresh(r.value.graph) && r.value.graph.IsSimple()
      && r.value.graph.adj == consensus
      && Labelling(louvain(consensus), r.value.commTrans, r.value.transComm)
  {
    var n := if |corrs| < |pvalues| then |corrs| else |pvalues|;
    var layers: seq<Adj> := [];
    for k := 0 to n
      invariant |layers| == k
      invariant forall j :: 0 <= j < k ==>
        layers[j] == CorrGraphAdj(corrs[j], pvalues[j], pvalueCutoff, corrCutoff)
    {
      var g := MakeCorrGraph(corrs[k], pvalues[k], pvalueCutoff, corrCutoff);
      layers := layers + [g.adj];
    }
    assert layers == LayerAdjs(corrs, pvalues, pvalueCutoff, corrCutoff);
    if n == 0 {
      return Failure(ValueError("cannot apply intersection_all to an empty list"));
    }
    LayersSimple(corrs, pvalues, pvalueCutoff, corrCutoff);
    IntersectAllSimple(layers);
    var inter := new Graph.FromAdj(IntersectAll(layers));
    var gInter := RemovePairIsolates(inter);
    var communities := louvain(gInter.adj);
    var commTrans, transComm := LabelCommunities(communities);
    r := Success(Consensus(gInter, transComm, commTrans));
  }
}
