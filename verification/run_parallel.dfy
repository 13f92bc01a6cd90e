/** Model of intersectomics/run_parallel.py: the enumeration of biomolecule
    pairs, the work tuples handed to the bootstrap correlator, and the merge
    of the per-pair results into the nested maps `correlations[s1][s2]` and
    `pvalues[s1][s2]`. The process pool is replaced by an arbitrary arrival
    order of the per-pair results. */
module RunParallel {
  import opened Common
  import opened Sorting
  import Utils

  /** One row of the expression table once its columns carry the replicate
      labels: the labels and the expression values. */
  datatype Series = Series(labels: seq<string>, values: seq<real>)

  /** The wide input table: one identifier per row (identifiers may repeat),
      the names of the column index levels, and the rows. */
  datatype Table = Table(index: seq<Node>, levelNames: seq<string>, rows: seq<Series>)

  /** Every row has an identifier. */
  predicate WellFormed(t: Table)
  {
    |t.index| == |t.rows|
  }

  /** What the bootstrap correlator returns: the correlation, its confidence
      interval and the combined p-value. */
  datatype Bootstrap = Bootstrap(correlation: real, interval: (real, real), combinedPvalue: real)

  /** The bootstrap correlator: a function of two series and the number of
      bootstrap iterations. */
  type Correlator = (Series, Series, int) -> Bootstrap

  /** The tuple `_pair_interator` yields for one pair. */
  datatype WorkItem = WorkItem(s1: Node, s2: Node, series1: Series, series2: Series, nIterations: int)

  /** The tuple `_compute_pair_spearman_correlation` returns. */
  datatype PairResult = PairResult(s1: Node, s2: Node, correlation: real, combinedPvalue: real)

  /** The exceptions of the module. `IndexError` carries the level names its
      message lists as the valid options. */
  datatype ParallelError =
    | IndexError(validOptions: seq<string>)
    | KeyError(key: Node)
    | ValueError(message: string)

  /** A dictionary of dictionaries, `d[s1][s2]`. */
  type Nested = map<Node, map<Node, real>>

  // ---------------------------------------------------------------------
  // Unique row identifiers and their pairs
  // ---------------------------------------------------------------------

  /** `Index.unique()`: the distinct identifiers, in order of first appearance. */
  function Unique(s: seq<Node>): (u: seq<Node>)
    ensures NoDuplicates(u)
    ensures forall x :: x in u <==> x in s
  {
    if s == [] then []
    else
      var init := s[..|s| - 1];
      assert s == init + [s[|s| - 1]];
      var p := Unique(init);
      if s[|s| - 1] in p then p else p + [s[|s| - 1]]
  }

  /** Appending an element does not move the first occurrence of one that
      was already present. */
  lemma {:induction false} IndexOfSnoc(s: seq<Node>, y: Node, x: Node)
    requires x in s
    ensures Utils.IndexOf(s + [y], x) == Utils.IndexOf(s, x)
  {
    if s[0] != x {
      assert (s + [y])[1..] == s[1..] + [y];
      IndexOfSnoc(s[1..], y, x);
    }
  }

  /** The identifiers come out in the order of their first appearance. */
  lemma {:induction false} UniqueFirstAppearance(s: seq<Node>)
    ensures forall i, j :: 0 <= i < j < |Unique(s)| ==>
      Utils.IndexOf(s, Unique(s)[i]) < Utils.IndexOf(s, Unique(s)[j])
  {
    if s != [] {
      var init := s[..|s| - 1];
      var last := s[|s| - 1];
      assert s == init + [last];
      UniqueFirstAppearance(init);
      var p := Unique(init);
      forall x | x in init
        ensures Utils.IndexOf(s, x) == Utils.IndexOf(init, x) < |init|
      {
        IndexOfSnoc(init, last, x);
      }
      if last !in p {
        assert last !in init;
        assert Utils.IndexOf(s, last) == |init|;
      }
    }
  }

  /** `itertools.combinations(u, 2)`: the pairs `(u[i], u[j])` with `i < j`,
      ordered by `i` and then by `j`. */
  function Pairs(u: seq<Node>): (ps: seq<(Node, Node)>)
  {
    if u == [] then []
    else MapSeq((x: Node) => (u[0], x), u[1..]) + Pairs(u[1..])
  }

  /** A pair is enumerated exactly when its first element stands before its
      second one. */
  lemma {:induction false} PairsMembership(u: seq<Node>, a: Node, b: Node)
    ensures (a, b) in Pairs(u) <==> exists i, j :: 0 <= i < j < |u| && u[i] == a && u[j] == b
  {
    if u != [] {
      PairsMembership(u[1..], a, b);
      var head := MapSeq((x: Node) => (u[0], x), u[1..]);
      if (a, b) in head {
        var k :| 0 <= k < |head| && head[k] == (a, b);
        assert u[0] == a && u[k + 1] == b;
      } else if (a, b) in Pairs(u[1..]) {
        var i, j :| 0 <= i < j < |u[1..]| && u[1..][i] == a && u[1..][j] == b;
        assert u[i + 1] == a && u[j + 1] == b;
      }
      if exists i, j :: 0 <= i < j < |u| && u[i] == a && u[j] == b {
        var i, j :| 0 <= i < j < |u| && u[i] == a && u[j] == b;
        if i == 0 {
          assert head[j - 1] == (a, b);
        } else {
          assert u[1..][i - 1] == a && u[1..][j - 1] == b;
        }
      }
    }
  }

  /** Both elements of every pair come from the enumerated sequence. */
  lemma PairsWithin(u: seq<Node>)
    ensures forall k :: 0 <= k < |Pairs(u)| ==> Pairs(u)[k].0 in u && Pairs(u)[k].1 in u
  {
    forall k | 0 <= k < |Pairs(u)|
      ensures Pairs(u)[k].0 in u && Pairs(u)[k].1 in u
    {
      var p := Pairs(u)[k];
      PairsMembership(u, p.0, p.1);
    }
  }

  /** Over distinct identifiers, no pair is enumerated twice, none pairs an
      identifier with itself, and none is also enumerated reversed. */
  lemma {:induction false} PairsDistinct(u: seq<Node>)
    requires NoDuplicates(u)
    ensures NoDuplicates(Pairs(u))
    ensures forall p :: p in Pairs(u) ==> p.0 != p.1 && (p.1, p.0) !in Pairs(u)
  {
    if u != [] {
      PairsDistinct(u[1..]);
      var head := MapSeq((x: Node) => (u[0], x), u[1..]);
      var tail := Pairs(u[1..]);
      PairsWithin(u[1..]);
      forall i, j | 0 <= i < j < |head + tail|
        ensures (head + tail)[i] != (head + tail)[j]
      {
        if j < |head| {
          assert head[i].1 == u[i + 1] && head[j].1 == u[j + 1];
        } else if i < |head| {
          assert tail[j - |head|].0 in u[1..];
        }
      }
    }
    forall p | p in Pairs(u)
      ensures p.0 != p.1 && (p.1, p.0) !in Pairs(u)
    {
      PairsMembership(u, p.0, p.1);
      PairsMembership(u, p.1, p.0);
    }
  }

  /** There are `n(n - 1)/2` pairs of `n` identifiers, the number
      `combinations_count(n, 2)` reports. */
  lemma {:induction false} PairsCount(u: seq<Node>)
    ensures |Pairs(u)| == |u| * (|u| - 1) / 2
    ensures Utils.CombinationsCount(|u|, 2) == Success(|Pairs(u)|)
  {
    if u != [] {
      PairsCount(u[1..]);
      var n := |u|;
      assert (n - 1) + (n - 1) * (n - 2) / 2 == n * (n - 1) / 2 by {
        assert (n - 1) * (n - 2) % 2 == 0 || (n - 1) * (n - 2) % 2 != 0;
        assert 2 * (n - 1) + (n - 1) * (n - 2) == n * (n - 1);
      }
    }
    Utils.CombinationsCountPairs(|u|);
  }

  // ---------------------------------------------------------------------
  // Rows by identifier and the work tuples
  // ---------------------------------------------------------------------

  /** `{index: row for index, row in df.iterrows()}`: a later row with the
      same identifier overwrites an earlier one. */
  function SeriesByLabel(index: seq<Node>, rows: seq<Series>): map<Node, Series>
    requires |index| == |rows|
  {
    if index == [] then map[]
    else
      var n := |index| - 1;
      SeriesByLabel(index[..n], rows[..n])[index[n] := rows[n]]
  }

  /** Every identifier, and nothing else, has a row. */
  lemma {:induction false} SeriesByLabelKeys(index: seq<Node>, rows: seq<Series>)
    requires |index| == |rows|
    ensures forall x :: x in SeriesByLabel(index, rows) <==> x in index
  {
    if index != [] {
      var n := |index| - 1;
      assert index == index[..n] + [index[n]];
      SeriesByLabelKeys(index[..n], rows[..n]);
    }
  }

  /** The row stored under an identifier is its last row. */
  lemma {:induction false} SeriesByLabelLast(index: seq<Node>, rows: seq<Series>, i: nat)
    requires |index| == |rows| && i < |index|
    requires forall j :: i < j < |index| ==> index[j] != index[i]
    ensures index[i] in SeriesByLabel(index, rows)
    ensures SeriesByLabel(index, rows)[index[i]] == rows[i]
  {
    var n := |index| - 1;
    if i < n {
      SeriesByLabelLast(index[..n], rows[..n], i);
    }
  }

  /** `_pair_interator`: one work tuple per pair, in the order of the pairs;
      looking up a name that has no row raises `KeyError` when the generator
      reaches it. */
  function PairIterator(combos: seq<(Node, Node)>, series: map<Node, Series>, nIterations: int := 10)
    : (r: Result<seq<WorkItem>, ParallelError>)
    ensures r.Success? <==>
      forall k :: 0 <= k < |combos| ==> combos[k].0 in series && combos[k].1 in series
    ensures r.Success? ==> |r.value| == |combos|
    ensures r.Success? ==> forall k :: 0 <= k < |combos| ==>
      r.value[k] == WorkItem(combos[k].0, combos[k].1,
                             series[combos[k].0], series[combos[k].1], nIterations)
    ensures r.Failure? ==> r.error.KeyError? && r.error.key !in series
  {
    if combos == [] then Success([])
    else
      var a := combos[0].0;
      var b := combos[0].1;
      if a !in series then Failure(KeyError(a))
      else if b !in series then Failure(KeyError(b))
      else
        match PairIterator(combos[1..], series, nIterations)
        case Success(rest) =>
          Success([WorkItem(a, b, series[a], series[b], nIterations)] + rest)
        case Failure(e) =>
          assert !(combos[1..][0].0 in series && combos[1..][0].1 in series) ||
                 exists k :: 0 <= k < |combos[1..]| && !(combos[1..][k].0 in series && combos[1..][k].1 in series);
          Failure(e)
  }

  /** `_compute_pair_spearman_correlation`: calls the correlator on the two
      series and returns both names unchanged with the correlation and the
      combined p-value, dropping the confidence interval. */
  function ComputePair(item: WorkItem, bootstrap: Correlator): (r: PairResult)
    ensures r.s1 == item.s1 && r.s2 == item.s2
    ensures r.correlation == bootstrap(item.series1, item.series2, item.nIterations).correlation
    ensures r.combinedPvalue == bootstrap(item.series1, item.series2, item.nIterations).combinedPvalue
  {
    var b := bootstrap(item.series1, item.series2, item.nIterations);
    PairResult(item.s1, item.s2, b.correlation, b.combinedPvalue)
  }

  /** The work tuples of a table, in enumeration order. The generator never
      meets an unknown name: every enumerated identifier has a row. */
  function Work(t: Table, nIterations: int): (items: seq<WorkItem>)
    requires WellFormed(t)
    ensures |items| == |Pairs(Unique(t.index))|
    ensures forall k :: 0 <= k < |items| ==>
      items[k].s1 == Pairs(Unique(t.index))[k].0 && items[k].s2 == Pairs(Unique(t.index))[k].1
  {
    var ps := Pairs(Unique(t.index));
    PairsWithin(Unique(t.index));
    SeriesByLabelKeys(t.index, t.rows);
    PairIterator(ps, SeriesByLabel(t.index, t.rows), nIterations).value
  }

  /** The per-pair results, in enumeration order. */
  function PairResults(t: Table, nIterations: int, bootstrap: Correlator): (rs: seq<PairResult>)
    requires WellFormed(t)
    ensures |rs| == |Pairs(Unique(t.index))|
    ensures forall k :: 0 <= k < |rs| ==> KeyOf(rs[k]) == Pairs(Unique(t.index))[k]
  {
    MapSeq((item: WorkItem) => ComputePair(item, bootstrap), Work(t, nIterations))
  }

  // ---------------------------------------------------------------------
  // The merge of the results
  // ---------------------------------------------------------------------

  /** The key a result is stored under. */
  function KeyOf(r: PairResult): (Node, Node)
  {
    (r.s1, r.s2)
  }

  function Correlation(r: PairResult): real
  {
    r.correlation
  }

  function Pvalue(r: PairResult): real
  {
    r.combinedPvalue
  }

  /** No two results are stored under the same key. */
  predicate DistinctKeys(results: seq<PairResult>)
  {
    forall i, j :: 0 <= i < j < |results| ==> KeyOf(results[i]) != KeyOf(results[j])
  }

  /** Results with the same key are the same result, so overwriting an entry
      cannot change it. */
  ghost predicate KeysDetermine(results: seq<PairResult>)
  {
    forall r1, r2 :: r1 in results && r2 in results && KeyOf(r1) == KeyOf(r2) ==> r1 == r2
  }

  /** `d[s1][s2] = v`, creating the inner dictionary on the first use of `s1`. */
  function Put(d: Nested, s1: Node, s2: Node, v: real): Nested
  {
    d[s1 := (if s1 in d then d[s1] else map[])[s2 := v]]
  }

  /** `Put` sets `d[s1][s2]` and leaves every other entry as it was. */
  lemma PutEntries(d: Nested, s1: Node, s2: Node, v: real)
    ensures Put(d, s1, s2, v).Keys == d.Keys + {s1}
    ensures Put(d, s1, s2, v)[s1].Keys == (if s1 in d then d[s1].Keys else {}) + {s2}
    ensures Put(d, s1, s2, v)[s1][s2] == v
    ensures forall a :: a in d && a != s1 ==> Put(d, s1, s2, v)[a] == d[a]
    ensures forall b :: s1 in d && b in d[s1] && b != s2 ==> Put(d, s1, s2, v)[s1][b] == d[s1][b]
  {
  }

  /** The merge loop run over `results` in order, storing `field` of each. */
  function Merged(results: seq<PairResult>, field: PairResult -> real): Nested
  {
    if results == [] then map[]
    else
      var n := |results| - 1;
      Put(Merged(results[..n], field), results[n].s1, results[n].s2, field(results[n]))
  }

  /** The outer keys of `d` are the first names of the results. */
  ghost predicate OuterKeys(d: Nested, results: seq<PairResult>)
  {
    d.Keys == (set r | r in results :: r.s1)
  }

  /** The inner keys under `s1` are the second names paired with `s1`. */
  ghost predicate InnerKeys(d: Nested, results: seq<PairResult>)
  {
    forall s1 :: s1 in d ==> d[s1].Keys == (set r | r in results && r.s1 == s1 :: r.s2)
  }

  /** The entry under each result's key is `field` of that result. */
  ghost predicate Entries(d: Nested, results: seq<PairResult>, field: PairResult -> real)
  {
    forall r :: r in results ==> r.s1 in d && r.s2 in d[r.s1] && d[r.s1][r.s2] == field(r)
  }

  /** `d` is the table of `results`: it holds exactly their keys, and under
      each key `field` of the result with that key. */
  ghost predicate Tabulates(d: Nested, results: seq<PairResult>, field: PairResult -> real)
  {
    OuterKeys(d, results) && InnerKeys(d, results) && Entries(d, results, field)
  }

  /** The merge creates an outer entry for each first name. */
  lemma {:induction false} MergedOuterKeys(results: seq<PairResult>, field: PairResult -> real)
    ensures OuterKeys(Merged(results, field), results)
  {
    if results != [] {
      var n := |results| - 1;
      assert results == results[..n] + [results[n]];
      MergedOuterKeys(results[..n], field);
    }
  }

  /** The merge files each second name under its first name. */
  lemma {:induction false} MergedInnerKeys(results: seq<PairResult>, field: PairResult -> real)
    ensures InnerKeys(Merged(results, field), results)
  {
    if results != [] {
      var n := |results| - 1;
      var init := results[..n];
      var last := results[n];
      assert results == init + [last];
      MergedInnerKeys(init, field);
      MergedOuterKeys(init, field);
      var prev := Merged(init, field);
      var d := Merged(results, field);
      forall s1 | s1 in d
        ensures d[s1].Keys == (set r | r in results && r.s1 == s1 :: r.s2)
      {
        if s1 == last.s1 && s1 !in prev {
          assert (set r | r in init && r.s1 == s1 :: r.s2) == {};
        }
      }
    }
  }

  /** Whenever equal keys carry equal results, the merge stores each result
      under its key: a later write never changes an entry. */
  lemma {:induction false} MergedEntries(results: seq<PairResult>, field: PairResult -> real)
    requires KeysDetermine(results)
    ensures Entries(Merged(results, field), results, field)
  {
    if results != [] {
      var n := |results| - 1;
      var init := results[..n];
      var last := results[n];
      assert results == init + [last];
      MergedEntries(init, field);
      var d := Merged(results, field);
      forall r | r in results
        ensures r.s1 in d && r.s2 in d[r.s1] && d[r.s1][r.s2] == field(r)
      {
        if KeyOf(r) == KeyOf(last) {
          assert r == last;
        } else {
          assert r in init;
        }
      }
    }
  }

  /** The merge tabulates its input whenever equal keys carry equal results. */
  lemma MergedTabulates(results: seq<PairResult>, field: PairResult -> real)
    requires KeysDetermine(results)
    ensures Tabulates(Merged(results, field), results, field)
  {
    MergedOuterKeys(results, field);
    MergedInnerKeys(results, field);
    MergedEntries(results, field);
  }

  /** A table of a set of results is unique. */
  lemma TabulatesUnique(d1: Nested, d2: Nested, results: seq<PairResult>, field: PairResult -> real)
    requires Tabulates(d1, results, field) && Tabulates(d2, results, field)
    ensures d1 == d2
  {
    forall s1 | s1 in d1
      ensures d1[s1] == d2[s1]
    {
      forall s2 | s2 in d1[s1]
        ensures d1[s1][s2] == d2[s1][s2]
      {
        var r :| r in results && r.s1 == s1 && r.s2 == s2;
        assert d1[r.s1][r.s2] == field(r);
      }
    }
  }

  /** Whatever it stores, the merge gives both dictionaries the same keys. */
  lemma {:induction false} MergedSameShape(results: seq<PairResult>, f: PairResult -> real, g: PairResult -> real)
    ensures Merged(results, f).Keys == Merged(results, g).Keys
    ensures forall s1 :: s1 in Merged(results, f) ==>
      Merged(results, f)[s1].Keys == Merged(results, g)[s1].Keys
  {
    if results != [] {
      MergedSameShape(results[..|results| - 1], f, g);
    }
  }

  /** The merge loop of `bootstrap_spearman_corr_parallel`, over the results
      in the order they arrive. */
  method MergeResults(results: seq<PairResult>) returns (correlations: Nested, pvalues: Nested)
    ensures correlations == Merged(results, Correlation)
    ensures pvalues == Merged(results, Pvalue)
    ensures correlations.Keys == pvalues.Keys
    ensures forall s1 :: s1 in correlations ==> correlations[s1].Keys == pvalues[s1].Keys
  {
    correlations := map[];
    pvalues := map[];
    for k := 0 to |results|
      invariant correlations == Merged(results[..k], Correlation)
      invariant pvalues == Merged(results[..k], Pvalue)
    {
      var r := results[k];
      assert results[..k + 1][..k] == results[..k];
      if r.s1 !in correlations {
        correlations := correlations[r.s1 := map[]];
      }
      correlations := correlations[r.s1 := correlations[r.s1][r.s2 := r.correlation]];
      if r.s1 !in pvalues {
        pvalues := pvalues[r.s1 := map[]];
      }
      pvalues := pvalues[r.s1 := pvalues[r.s1][r.s2 := r.combinedPvalue]];
    }
    assert results[..|results|] == results;
    MergedSameShape(results, Correlation, Pvalue);
  }

  // ---------------------------------------------------------------------
  // Arrival order
  // ---------------------------------------------------------------------

  /** `arrival[k]` is the enumeration position of the k-th result that
      `imap_unordered` delivers: every position arrives exactly once. */
  predicate IsArrivalOrder(arrival: seq<nat>, n: nat)
  {
    && |arrival| == n
    && (forall k :: 0 <= k < n ==> arrival[k] < n)
    && (forall i, j :: 0 <= i < j < n ==> arrival[i] != arrival[j])
    && (forall p :: 0 <= p < n ==> p in arrival)
  }

  /** The results in the order they arrive. */
  function Arrived(results: seq<PairResult>, arrival: seq<nat>): (a: seq<PairResult>)
    requires IsArrivalOrder(arrival, |results|)
    ensures |a| == |results|
    ensures forall k :: 0 <= k < |a| ==> a[k] == results[arrival[k]]
  {
    seq(|arrival|, k requires 0 <= k < |arrival| => results[arrival[k]])
  }

  /** The arrived results are the same results, and still distinct by key:
      each key is written exactly once. */
  lemma ArrivedSame(results: seq<PairResult>, arrival: seq<nat>)
    requires IsArrivalOrder(arrival, |results|)
    requires DistinctKeys(results)
    ensures forall r :: r in Arrived(results, arrival) <==> r in results
    ensures DistinctKeys(Arrived(results, arrival))
  {
    var a := Arrived(results, arrival);
    forall r | r in results
      ensures r in a
    {
      var p :| 0 <= p < |results| && results[p] == r;
      assert p in arrival;
      var k :| 0 <= k < |arrival| && arrival[k] == p;
      assert a[k] == r;
    }
  }

  /** Distinct keys determine their results. */
  lemma DistinctKeysDetermine(results: seq<PairResult>)
    requires DistinctKeys(results)
    ensures KeysDetermine(results)
  {
    forall r1, r2 | r1 in results && r2 in results && KeyOf(r1) == KeyOf(r2)
      ensures r1 == r2
    {
      var i :| 0 <= i < |results| && results[i] == r1;
      var j :| 0 <= j < |results| && results[j] == r2;
      assert i == j;
    }
  }

  /** The merged dictionary tabulates the results, whatever order they
      arrive in. */
  lemma ArrivedTabulates(results: seq<PairResult>, arrival: seq<nat>, field: PairResult -> real)
    requires IsArrivalOrder(arrival, |results|)
    requires DistinctKeys(results)
    ensures Tabulates(Merged(Arrived(results, arrival), field), results, field)
  {
    var a := Arrived(results, arrival);
    ArrivedSame(results, arrival);
    DistinctKeysDetermine(a);
    MergedTabulates(a, field);
    TabulatesSameElements(Merged(a, field), a, results, field);
  }

  /** Whether `d` tabulates a sequence of results depends only on which
      results it holds, not on their order. */
  lemma TabulatesSameElements(d: Nested, a: seq<PairResult>, b: seq<PairResult>, field: PairResult -> real)
    requires forall r :: r in a <==> r in b
    requires Tabulates(d, a, field)
    ensures Tabulates(d, b, field)
  {
    assert (set r | r in a :: r.s1) == (set r | r in b :: r.s1);
    forall s1 | s1 in d
      ensures (set r | r in a && r.s1 == s1 :: r.s2) == (set r | r in b && r.s1 == s1 :: r.s2)
    {
    }
  }

  /** The merged dictionaries do not depend on the order in which the
      results arrive. */
  lemma MergeOrderIndependent(results: seq<PairResult>, arrival1: seq<nat>, arrival2: seq<nat>, field: PairResult -> real)
    requires IsArrivalOrder(arrival1, |results|) && IsArrivalOrder(arrival2, |results|)
    requires DistinctKeys(results)
    ensures Merged(Arrived(results, arrival1), field) == Merged(Arrived(results, arrival2), field)
  {
    ArrivedTabulates(results, arrival1, field);
    ArrivedTabulates(results, arrival2, field);
    TabulatesUnique(Merged(Arrived(results, arrival1), field),
                    Merged(Arrived(results, arrival2), field), results, field);
  }

  // ---------------------------------------------------------------------
  // bootstrap_spearman_corr_parallel
  // ---------------------------------------------------------------------

  /** The enumerated results carry the enumerated pairs as keys, each once. */
  lemma PairResultsKeys(t: Table, nIterations: int, bootstrap: Correlator)
    requires WellFormed(t)
    ensures DistinctKeys(PairResults(t, nIterations, bootstrap))
    ensures forall s1, s2 :: (s1, s2) in Pairs(Unique(t.index)) <==>
      exists r :: r in PairResults(t, nIterations, bootstrap) && r.s1 == s1 && r.s2 == s2
  {
    var rs := PairResults(t, nIterations, bootstrap);
    var ps := Pairs(Unique(t.index));
    PairsDistinct(Unique(t.index));
    forall s1, s2 | (s1, s2) in ps
      ensures exists r :: r in rs && r.s1 == s1 && r.s2 == s2
    {
      var k :| 0 <= k < |ps| && ps[k] == (s1, s2);
      assert KeyOf(rs[k]) == ps[k];
    }
    forall r | r in rs
      ensures (r.s1, r.s2) in ps
    {
      var k :| 0 <= k < |rs| && rs[k] == r;
      assert KeyOf(rs[k]) == ps[k];
    }
  }

  /** The exact message of the `ValueError` that `imap_unordered` raises for
      a chunk size below one. */
  function ChunksizeMessage(chunkSize: int): string
  {
    "Chunksize must be 1+, not " + IntToString(chunkSize)
  }

  /** Decimal notation of an integer. */
  function IntToString(n: int): string
    decreases if n < 0 then 1 - n else n
  {
    if n < 0 then "-" + IntToString(-n)
    else if n < 10 then ["0123456789"[n]]
    else IntToString(n / 10) + ["0123456789"[n % 10]]
  }

  /** `bootstrap_spearman_corr_parallel`: checks the replicate level name,
      enumerates the pairs of unique row identifiers, runs the correlator on
      every pair (the results arriving in the order `arrival` gives) and
      merges the results into the correlation and p-value dictionaries. */
  method BootstrapSpearmanCorrParallel(
    dfInput: Table, replicateColumnName: string, bootstrap: Correlator, arrival: seq<nat>,
    nProcesses: int := 4, nIterations: int := 10, chunkSize: int := 10)
    returns (r: Result<(Nested, Nested), ParallelError>)
    requires WellFormed(dfInput)
    requires IsArrivalOrder(arrival, |Pairs(Unique(dfInput.index))|)
    ensures replicateColumnName !in dfInput.levelNames ==>
      r == Failure(IndexError(dfInput.levelNames))
    ensures replicateColumnName in dfInput.levelNames && nProcesses < 1 ==>
      r == Failure(ValueError("Number of processes must be at least 1"))
    ensures replicateColumnName in dfInput.levelNames && nProcesses >= 1 && chunkSize < 1 ==>
      r == Failure(ValueError(ChunksizeMessage(chunkSize)))
    ensures r.Success? <==>
      replicateColumnName in dfInput.levelNames && nProcesses >= 1 && chunkSize >= 1
    ensures r.Success? ==>
      var rs := PairResults(dfInput, nIterations, bootstrap);
      && Tabulates(r.value.0, rs, Correlation)
      && Tabulates(r.value.1, rs, Pvalue)
  {
    if replicateColumnName !in dfInput.levelNames {
      return Failure(IndexError(dfInput.levelNames));
    }
    var ids := Unique(dfInput.index);
    var pairs := Pairs(ids);
    var series := SeriesByLabel(dfInput.index, dfInput.rows);
    PairsWithin(ids);
    SeriesByLabelKeys(dfInput.index, dfInput.rows);
    var items := PairIterator(pairs, series, nIterations).value;
    if nProcesses < 1 {
      return Failure(ValueError("Number of processes must be at least 1"));
    }
    if chunkSize < 1 {
      return Failure(ValueError(ChunksizeMessage(chunkSize)));
    }
    var computed := seq(|items|, k requires 0 <= k < |items| => ComputePair(items[k], bootstrap));
    assert computed == PairResults(dfInput, nIterations, bootstrap);
    var results := Arrived(computed, arrival);
    var correlations, pvalues := MergeResults(results);
    PairResultsKeys(dfInput, nIterations, bootstrap);
    ArrivedTabulates(computed, arrival, Correlation);
    ArrivedTabulates(computed, arrival, Pvalue);
    return Success((correlations, pvalues));
  }

  /** Every enumerated pair, and only those, has an entry in the
      dictionaries the merge builds. */
  lemma TabulatedPairs(t: Table, nIterations: int, bootstrap: Correlator, d: Nested, field: PairResult -> real)
    requires WellFormed(t)
    requires Tabulates(d, PairResults(t, nIterations, bootstrap), field)
    ensures forall s1, s2 :: (s1, s2) in Pairs(Unique(t.index)) <==> s1 in d && s2 in d[s1]
  {
    var rs := PairResults(t, nIterations, bootstrap);
    PairResultsKeys(t, nIterations, bootstrap);
    forall s1, s2 | s1 in d && s2 in d[s1]
      ensures exists r :: r in rs && r.s1 == s1 && r.s2 == s2
    {
      assert s2 in (set r | r in rs && r.s1 == s1 :: r.s2);
    }
    forall s1, s2 | (s1, s2) in Pairs(Unique(t.index))
      ensures s1 in d && s2 in d[s1]
    {
      var r :| r in rs && r.s1 == s1 && r.s2 == s2;
      assert r.s1 in (set r | r in rs :: r.s1);
      assert r.s2 in (set q | q in rs && q.s1 == s1 :: q.s2);
    }
  }

  /** The number of pairs reported to the progress bar is the number of pairs
      enumerated. */
  lemma IterLength(t: Table)
    ensures Utils.CombinationsCount(|Unique(t.index)|, 2) == Success(|Pairs(Unique(t.index))|)
  {
    PairsCount(Unique(t.index));
  }
}
