/** Model of intersectomics/utils.py: the binomial coefficient used as the
    expected number of biomolecule pairs, and the check that attaches sample
    metadata to the columns of a measurement table. */
module Utils {
  import opened Common
  import opened Sorting

  /** The exceptions the two functions raise. */
  datatype UtilsError =
    | IndexError(message: string)
    | ValueError(message: string)

  // ---------------------------------------------------------------------
  // combinations_count
  // ---------------------------------------------------------------------

  function Factorial(n: nat): (r: nat)
    ensures r >= 1
  {
    if n == 0 then 1 else n * Factorial(n - 1)
  }

  /** The number of r-element subsets of an n-element set, by Pascal's rule;
      the reference that the factorial formula is checked against. */
  function Choose(n: nat, r: nat): nat
    decreases n
  {
    if r > n then 0
    else if r == 0 || r == n then 1
    else Choose(n - 1, r - 1) + Choose(n - 1, r)
  }

  /** r! * (n-r)! divides n!, with Pascal's count as the quotient. */
  lemma {:induction false} ChooseTimesFactorials(n: nat, r: nat)
    requires r <= n
    ensures Choose(n, r) * (Factorial(r) * Factorial(n - r)) == Factorial(n)
    decreases n
  {
    if 0 < r < n {
      ChooseTimesFactorials(n - 1, r - 1);
      ChooseTimesFactorials(n - 1, r);
      assert n - 1 - (r - 1) == n - r;
      assert Factorial(r) == r * Factorial(r - 1);
      assert Factorial(n - r) == (n - r) * Factorial(n - r - 1);
      PascalArithmetic(n, r, Choose(n - 1, r - 1), Choose(n - 1, r), Factorial(n - 1),
                       Factorial(r - 1), Factorial(n - r - 1));
    }
  }

  /** The arithmetic step of Pascal's rule, over plain integers. */
  lemma PascalArithmetic(n: int, r: int, a: int, b: int, f: int, xm: int, ym: int)
    requires a * (xm * ((n - r) * ym)) == f
    requires b * ((r * xm) * ym) == f
    ensures (a + b) * ((r * xm) * ((n - r) * ym)) == n * f
  {
    var u := xm * ((n - r) * ym);
    var v := (r * xm) * ym;
    assert (r * xm) * ((n - r) * ym) == r * u;
    assert (r * xm) * ((n - r) * ym) == (n - r) * v;
    calc {
      (a + b) * ((r * xm) * ((n - r) * ym));
      a * (r * u) + b * ((n - r) * v);
      r * (a * u) + (n - r) * (b * v);
      r * f + (n - r) * f;
      n * f;
    }
  }

  lemma DivideExactly(a: int, q: int, d: int)
    requires d > 0 && a == q * d
    ensures a / d == q
  {
    var e := a / d - q;
    assert d * e == -(a % d);
    NoSmallMultiple(d, e);
  }

  lemma NoSmallMultiple(d: int, e: int)
    requires d > 0 && -d < d * e <= 0
    ensures e == 0
  {
  }

  /** `combinations_count(n, r)`: 0 when r > n; otherwise
      n! // (r! * (n - r)!), where Python's `factorial` raises ValueError on a
      negative argument. */
  function CombinationsCount(n: int, r: int): (c: Result<nat, UtilsError>)
    ensures r > n ==> c == Success(0)
    ensures r <= n && r < 0 ==> c == Failure(ValueError("factorial() not defined for negative values"))
    ensures 0 <= r <= n ==>
      c.Success? && c.value * (Factorial(r) * Factorial(n - r)) == Factorial(n)
    ensures 0 <= r <= n ==> c == Success(Choose(n, r))
  {
    if r > n then Success(0)
    else if n < 0 || r < 0 then Result<nat, UtilsError>.Failure(ValueError("factorial() not defined for negative values"))
    else
      ChooseTimesFactorials(n, r);
      DivideExactly(Factorial(n), Choose(n, r), Factorial(r) * Factorial(n - r));
      Success(Factorial(n) / (Factorial(r) * Factorial(n - r)))
  }

  /** Choosing r is choosing the n - r left behind. */
  lemma CombinationsCountSymmetric(n: int, r: int)
    requires 0 <= r <= n
    ensures CombinationsCount(n, r) == CombinationsCount(n, n - r)
  {
    assert n - (n - r) == r;
    assert Factorial(r) * Factorial(n - r) == Factorial(n - r) * Factorial(n - (n - r));
  }

  lemma {:induction false} ChooseTwo(n: nat)
    ensures Choose(n, 2) == n * (n - 1) / 2
  {
    if n >= 3 {
      ChooseTwo(n - 1);
      assert Choose(n - 1, 1) == n - 1 by { ChooseOne(n - 1); }
      assert (n - 1) * (n - 2) + 2 * (n - 1) == n * (n - 1);
    }
  }

  lemma {:induction false} ChooseOne(n: nat)
    ensures Choose(n, 1) == n
  {
    if n > 1 {
      ChooseOne(n - 1);
    }
  }

  /** The number of unordered pairs of n items: n(n-1)/2 (0 for n < 2). */
  lemma CombinationsCountPairs(n: nat)
    ensures CombinationsCount(n, 2) == Success(n * (n - 1) / 2)
  {
    if n >= 2 {
      ChooseTwo(n);
    }
  }

  // ---------------------------------------------------------------------
  // add_cols_multi_index
  // ---------------------------------------------------------------------

  /** One column of the measurement table: its sample name and its values. */
  datatype Column = Column(name: string, values: seq<real>)

  /** The sample metadata table; `rows[i][k]` is row i's value of field k. */
  datatype Metadata = Metadata(fields: seq<string>, rows: seq<seq<string>>)

  /** A column whose label has become a metadata row (one level per field). */
  datatype KeyedColumn = KeyedColumn(key: seq<string>, values: seq<real>)

  /** A table whose columns are a MultiIndex with one level per field. */
  datatype MultiIndexTable = MultiIndexTable(levelNames: seq<string>, columns: seq<KeyedColumn>)

  /** Every metadata row has one value per field (the shape of a DataFrame). */
  predicate WellShaped(m: Metadata)
  {
    forall i :: 0 <= i < |m.rows| ==> |m.rows[i]| == |m.fields|
  }

  /** Position of the first occurrence of `x`. */
  function IndexOf(s: seq<string>, x: string): (k: nat)
    requires x in s
    ensures k < |s| && s[k] == x
    ensures forall i :: 0 <= i < k ==> s[i] != x
  {
    if s[0] == x then 0 else 1 + IndexOf(s[1..], x)
  }

  /** Field k of a metadata row. */
  function Field(row: seq<string>, k: nat): string
  {
    if k < |row| then row[k] else ""
  }

  /** The column index of the table (`df.columns`), repeats included. */
  function Labels(cols: seq<Column>): (r: seq<string>)
    ensures |r| == |cols|
    ensures forall i :: 0 <= i < |cols| ==> r[i] == cols[i].name
  {
    MapSeq((c: Column) => c.name, cols)
  }

  /** The values of field k, row by row (`df[field].to_list()`). */
  function Keys(rows: seq<seq<string>>, k: nat): (r: seq<string>)
    ensures |r| == |rows|
    ensures forall i :: 0 <= i < |rows| ==> r[i] == Field(rows[i], k)
  {
    MapSeq((row: seq<string>) => Field(row, k), rows)
  }

  function ByField(k: nat): (seq<string>, seq<string>) -> bool
  {
    (a: seq<string>, b: seq<string>) => LexLe(Field(a, k), Field(b, k))
  }

  lemma ByFieldOrder(k: nat)
    ensures TotalPreorder(ByField(k))
  {
    LexOrder();
    assert forall a, b :: ByField(k)(a, b) == LexLe(Field(a, k), Field(b, k));
  }

  const MISMATCH_MESSAGE := "The columns index and the metadata_index_column do not match"

  /** The IndexError message naming the absent metadata column. */
  function MissingColumnMessage(name: string): string
  {
    "The " + name + " is not in the columns of the metadata"
  }

  /** The metadata rows sorted by their key field (`sort_values(by=...)`). */
  function SortedRows(metadata: Metadata, k: nat): (r: seq<seq<string>>)
    ensures multiset(r) == multiset(metadata.rows)
    ensures SortedBy(Keys(r, k), LexLe)
  {
    ByFieldOrder(k);
    LexOrder();
    SortByMap(metadata.rows, (row: seq<string>) => Field(row, k), ByField(k), LexLe);
    SortBy(metadata.rows, ByField(k))
  }

  /** `sorted(df.columns)`: the column names in ascending order, a name
      listed once for every column that carries it. */
  function SortedLabels(data: seq<Column>): (r: seq<string>)
    ensures SortedBy(r, LexLe)
    ensures multiset(r) == multiset(Labels(data))
  {
    LexOrder();
    SortBy(Labels(data), LexLe)
  }

  /** Label-based selection of one name: every column carrying `name`, in
      table order (a column index may repeat names). */
  function Select(data: seq<Column>, name: string): (r: seq<Column>)
    ensures forall i :: 0 <= i < |r| ==> r[i].name == name
  {
    if data == [] then []
    else if data[0].name == name then [data[0]] + Select(data[1..], name)
    else Select(data[1..], name)
  }

  /** `df[names]`: for each listed name in turn, every column it labels. */
  function SelectAll(data: seq<Column>, names: seq<string>): (r: seq<Column>)
    ensures forall i :: 0 <= i < |r| ==> r[i].name in names
  {
    if names == [] then []
    else Select(data, names[0]) + SelectAll(data, names[1..])
  }

  /** `df[sorted(df.columns)]`. A name carried by k columns is listed k
      times and each listing selects all k of them, so it yields k * k
      columns; with distinct names this is a permutation of the columns. */
  function SortedColumns(data: seq<Column>): (r: seq<Column>)
    ensures SortedBy(Labels(r), LexLe)
  {
    var names := SortedLabels(data);
    SelectAllSorted(data, names);
    SelectAll(data, names)
  }

  lemma LabelsAppend(a: seq<Column>, b: seq<Column>)
    ensures Labels(a + b) == Labels(a) + Labels(b)
  {
  }

  /** Selecting the names of a sorted list gives columns in name order. */
  lemma {:induction false} SelectAllSorted(data: seq<Column>, names: seq<string>)
    requires SortedBy(names, LexLe)
    ensures SortedBy(Labels(SelectAll(data, names)), LexLe)
  {
    if names != [] {
      LexOrder();
      var head := Select(data, names[0]);
      var tail := SelectAll(data, names[1..]);
      SelectAllSorted(data, names[1..]);
      LabelsAppend(head, tail);
      var l := Labels(head + tail);
      forall i, j | 0 <= i < j < |l| ensures LexLe(l[i], l[j]) {
        if j < |head| {
          assert l[i] == names[0] == l[j];
          LexLeTotal(l[i], l[j]);
        } else if i < |head| {
          assert l[j] == tail[j - |head|].name;
          var m :| 0 <= m < |names[1..]| && names[1..][m] == l[j];
          assert LexLe(names[0], names[m + 1]);
        } else {
          assert l[i] == Labels(tail)[i - |head|] && l[j] == Labels(tail)[j - |head|];
        }
      }
    }
  }

  /** A name labels as many selected columns as it labels columns. */
  lemma {:induction false} SelectLength(data: seq<Column>, name: string)
    ensures |Select(data, name)| == multiset(Labels(data))[name]
  {
    if data != [] {
      SelectLength(data[1..], name);
      assert data == [data[0]] + data[1..];
      LabelsAppend([data[0]], data[1..]);
      assert multiset(Labels(data))[name]
          == (if data[0].name == name then 1 else 0) + multiset(Labels(data[1..]))[name];
    }
  }

  /** A column is selected by its own name as often as it occurs, and by no
      other name. */
  lemma {:induction false} SelectCount(data: seq<Column>, name: string, c: Column)
    ensures multiset(Select(data, name))[c] == if c.name == name then multiset(data)[c] else 0
  {
    if data != [] {
      SelectCount(data[1..], name, c);
      assert data == [data[0]] + data[1..];
    }
  }

  /** A sequence of one repeated value holds it |s| times and nothing else. */
  lemma {:induction false} ConstantCount<T>(s: seq<T>, x: T, y: T)
    requires forall i :: 0 <= i < |s| ==> s[i] == x
    ensures multiset(s)[y] == if y == x then |s| else 0
  {
    if s != [] {
      ConstantCount(s[1..], x, y);
      assert s == [s[0]] + s[1..];
    }
  }

  /** Each listing of a name contributes every column carrying that name. */
  lemma {:induction false} SelectAllLabelCount(data: seq<Column>, names: seq<string>, n: string)
    ensures multiset(Labels(SelectAll(data, names)))[n]
         == Times(multiset(names)[n], multiset(Labels(data))[n])
  {
    if names != [] {
      var head := Select(data, names[0]);
      var tail := SelectAll(data, names[1..]);
      SelectAllLabelCount(data, names[1..], n);
      LabelsAppend(head, tail);
      AppendCount(Labels(head), Labels(tail), n);
      ConstantCount(Labels(head), names[0], n);
      SelectLength(data, n);
      HeadCount(names, n);
      AddOneTimes(names[0] == n, multiset(names[1..])[n], multiset(Labels(data))[n]);
    }
  }

  /** Each listing of a name contributes every copy of a column carrying it. */
  lemma {:induction false} SelectAllCount(data: seq<Column>, names: seq<string>, c: Column)
    ensures multiset(SelectAll(data, names))[c] == Times(multiset(names)[c.name], multiset(data)[c])
  {
    if names != [] {
      var head := Select(data, names[0]);
      var tail := SelectAll(data, names[1..]);
      SelectAllCount(data, names[1..], c);
      SelectCount(data, names[0], c);
      AppendCount(head, tail, c);
      HeadCount(names, c.name);
      AddOneTimes(names[0] == c.name, multiset(names[1..])[c.name], multiset(data)[c]);
    }
  }

  lemma AppendCount<T>(a: seq<T>, b: seq<T>, x: T)
    ensures multiset(a + b)[x] == multiset(a)[x] + multiset(b)[x]
  {
  }

  lemma HeadCount<T>(s: seq<T>, x: T)
    requires s != []
    ensures multiset(s)[x] == (if s[0] == x then 1 else 0) + multiset(s[1..])[x]
  {
    assert s == [s[0]] + s[1..];
  }

  /** Counting one more listing adds one more block of m. */
  lemma AddOneTimes(hit: bool, b: nat, m: nat)
    ensures Times((if hit then 1 else 0) + b, m) == (if hit then m else 0) + Times(b, m)
  {
  }

  /** n blocks of m, added up. Counting proofs use this sum, which keeps
      them linear; `TimesIsProduct` shows it is n * m. */
  function Times(n: nat, m: nat): nat
  {
    if n == 0 then 0 else m + Times(n - 1, m)
  }

  lemma {:induction false} TimesIsProduct(n: nat, m: nat)
    ensures Times(n, m) == n * m
  {
    if n > 0 {
      TimesIsProduct(n - 1, m);
      assert n * m == m + (n - 1) * m;
    }
  }

  /** A name carried by k columns labels k * k columns after the selection. */
  lemma SortedColumnsLabelCount(data: seq<Column>, n: string)
    ensures multiset(Labels(SortedColumns(data)))[n]
         == Times(multiset(Labels(data))[n], multiset(Labels(data))[n])
  {
    SelectAllLabelCount(data, SortedLabels(data), n);
  }

  /** A column whose name k columns carry is selected k times. */
  lemma SortedColumnsCount(data: seq<Column>, c: Column)
    ensures multiset(SortedColumns(data))[c] == Times(multiset(Labels(data))[c.name], multiset(data)[c])
  {
    SelectAllCount(data, SortedLabels(data), c);
  }

  /** With distinct column names the selection is a permutation of the columns. */
  lemma SortedColumnsDistinct(data: seq<Column>)
    requires NoDuplicates(Labels(data))
    ensures multiset(SortedColumns(data)) == multiset(data)
  {
    forall c ensures multiset(SortedColumns(data))[c] == multiset(data)[c] {
      SelectedOnce(data, c);
    }
  }

  lemma SelectedOnce(data: seq<Column>, c: Column)
    requires NoDuplicates(Labels(data))
    ensures multiset(SortedColumns(data))[c] == multiset(data)[c]
  {
    SortedColumnsCount(data, c);
    NoDuplicatesCount(Labels(data), c.name);
    var k := multiset(Labels(data))[c.name];
    if c in data {
      var i :| 0 <= i < |data| && data[i] == c;
      assert Labels(data)[i] == c.name;
      assert k == 1;
    } else {
      assert multiset(data)[c] == 0;
    }
  }

  /** A sequence without repeats holds each value at most once. */
  lemma {:induction false} NoDuplicatesCount<T>(s: seq<T>, x: T)
    requires NoDuplicates(s)
    ensures multiset(s)[x] <= 1
  {
    if s != [] {
      NoDuplicatesCount(s[1..], x);
      assert s == [s[0]] + s[1..];
      if s[0] == x {
        assert x !in s[1..];
      }
    }
  }

  /** `add_cols_multi_index`: selects the columns of `data` in name order and
      sorts the metadata rows by the `indexColumn` field, requires the two
      name lists to be equal and then makes the i-th metadata row the
      MultiIndex key of the i-th selected column. */
  function AddColsMultiIndex(data: seq<Column>, metadata: Metadata, indexColumn: string)
    : (r: Result<MultiIndexTable, UtilsError>)
    requires WellShaped(metadata)
    ensures indexColumn !in metadata.fields ==>
      r == Failure(IndexError(MissingColumnMessage(indexColumn)))
    ensures r.Success? ==>
      var k := IndexOf(metadata.fields, indexColumn);
      var cols := r.value.columns;
      && r.value.levelNames == metadata.fields
      && |cols| == |metadata.rows|
      // the columns come out in name order
      && SortedBy(MapSeq((c: KeyedColumn) => Field(c.key, k), cols), LexLe)
      // every metadata row becomes the key of exactly one column
      && multiset(MapSeq((c: KeyedColumn) => c.key, cols)) == multiset(metadata.rows)
      // column i is the i-th selected column, keyed by a row holding its name
      && MapSeq((c: KeyedColumn) => Column(Field(c.key, k), c.values), cols) == SortedColumns(data)
  {
    if indexColumn !in metadata.fields then
      Failure(IndexError(MissingColumnMessage(indexColumn)))
    else
      var k := IndexOf(metadata.fields, indexColumn);
      if indexColumn in metadata.fields[k + 1..] then
        Failure(ValueError("The column label '" + indexColumn + "' is not unique."))
      else
        var selected := SortedColumns(data);
        var sortedMeta := SortedRows(metadata, k);
        if Labels(selected) != Keys(sortedMeta, k) then
          Failure(IndexError(MISMATCH_MESSAGE))
        else
          var cols := seq(|selected|, i requires 0 <= i < |selected| =>
                            KeyedColumn(sortedMeta[i], selected[i].values));
          assert MapSeq((c: KeyedColumn) => Field(c.key, k), cols) == Keys(sortedMeta, k);
          assert MapSeq((c: KeyedColumn) => c.key, cols) == sortedMeta;
          assert MapSeq((c: KeyedColumn) => Column(Field(c.key, k), c.values), cols) == selected;
          Success(MultiIndexTable(metadata.fields, cols))
  }

  /** The mismatch IndexError, stated without sorting: with a unique key
      field, the call succeeds exactly when each name that k columns carry
      is the key of k * k metadata rows (the selection's count), and
      otherwise raises the mismatch IndexError. */
  lemma AddColsMultiIndexSucceeds(data: seq<Column>, metadata: Metadata, indexColumn: string)
    requires WellShaped(metadata)
    requires indexColumn in metadata.fields
    requires indexColumn !in metadata.fields[IndexOf(metadata.fields, indexColumn) + 1..]
    ensures AddColsMultiIndex(data, metadata, indexColumn).Success? <==>
      forall n :: multiset(Keys(metadata.rows, IndexOf(metadata.fields, indexColumn)))[n]
               == Times(multiset(Labels(data))[n], multiset(Labels(data))[n])
    ensures AddColsMultiIndex(data, metadata, indexColumn).Failure? ==>
      AddColsMultiIndex(data, metadata, indexColumn) == Failure(IndexError(MISMATCH_MESSAGE))
  {
    SortedNamesAgree(data, metadata, IndexOf(metadata.fields, indexColumn));
  }

  /** The sorted name lists agree exactly when the key counts are the
      selection's counts. */
  lemma SortedNamesAgree(data: seq<Column>, metadata: Metadata, k: nat)
    ensures Labels(SortedColumns(data)) == Keys(SortedRows(metadata, k), k) <==>
      forall n :: multiset(Keys(metadata.rows, k))[n]
               == Times(multiset(Labels(data))[n], multiset(Labels(data))[n])
  {
    var selected := SortedColumns(data);
    var sortedMeta := SortedRows(metadata, k);
    KeysMultiset(sortedMeta, metadata.rows, k);
    forall n ensures multiset(Labels(selected))[n] == Times(multiset(Labels(data))[n], multiset(Labels(data))[n]) {
      SortedColumnsLabelCount(data, n);
    }
    if forall n :: multiset(Keys(metadata.rows, k))[n] == Times(multiset(Labels(data))[n], multiset(Labels(data))[n]) {
      assert multiset(Labels(selected)) == multiset(Keys(sortedMeta, k));
      LexOrder();
      SortedUnique(Labels(selected), Keys(sortedMeta, k), LexLe);
    }
  }

  /** With distinct column names, the call succeeds exactly when the column
      names and the key values are the same multiset. */
  lemma AddColsMultiIndexDistinct(data: seq<Column>, metadata: Metadata, indexColumn: string)
    requires WellShaped(metadata)
    requires indexColumn in metadata.fields
    requires indexColumn !in metadata.fields[IndexOf(metadata.fields, indexColumn) + 1..]
    requires NoDuplicates(Labels(data))
    ensures AddColsMultiIndex(data, metadata, indexColumn).Success? <==>
      multiset(Labels(data)) == multiset(Keys(metadata.rows, IndexOf(metadata.fields, indexColumn)))
  {
    AddColsMultiIndexSucceeds(data, metadata, indexColumn);
    SquareCounts(Labels(data), Keys(metadata.rows, IndexOf(metadata.fields, indexColumn)));
  }

  /** Counts of at most one are their own squares. */
  lemma SquareCounts(labels: seq<string>, keys: seq<string>)
    requires NoDuplicates(labels)
    ensures (forall n :: multiset(keys)[n] == Times(multiset(labels)[n], multiset(labels)[n]))
        <==> multiset(labels) == multiset(keys)
  {
    forall n ensures Times(multiset(labels)[n], multiset(labels)[n]) == multiset(labels)[n] {
      NoDuplicatesCount(labels, n);
    }
  }

  /** Metadata listing every column once does not fit once a column name
      repeats: a name carried by k >= 2 columns is selected k * k times. */
  lemma RepeatedNameFails(data: seq<Column>, metadata: Metadata, indexColumn: string)
    requires WellShaped(metadata)
    requires indexColumn in metadata.fields
    requires indexColumn !in metadata.fields[IndexOf(metadata.fields, indexColumn) + 1..]
    requires multiset(Labels(data)) == multiset(Keys(metadata.rows, IndexOf(metadata.fields, indexColumn)))
    requires !NoDuplicates(Labels(data))
    ensures AddColsMultiIndex(data, metadata, indexColumn).Failure?
  {
    AddColsMultiIndexSucceeds(data, metadata, indexColumn);
    var i, j :| 0 <= i < j < |Labels(data)| && Labels(data)[i] == Labels(data)[j];
    var n := Labels(data)[i];
    RepeatCount(Labels(data), i, j);
    TimesGrows(multiset(Labels(data))[n]);
  }

  /** A value at two positions occurs at least twice. */
  lemma RepeatCount<T>(s: seq<T>, i: nat, j: nat)
    requires i < j < |s| && s[i] == s[j]
    ensures multiset(s)[s[i]] >= 2
  {
    assert s == s[..j] + [s[j]] + s[j + 1..];
    assert s[i] == s[..j][i];
    AppendCount(s[..j] + [s[j]], s[j + 1..], s[i]);
    AppendCount(s[..j], [s[j]], s[i]);
  }

  lemma TimesGrows(m: nat)
    requires m >= 2
    ensures Times(m, m) > m
  {
    TimesIsProduct(m, m);
    assert m * m >= 2 * m;
  }

  lemma KeysMultiset(a: seq<seq<string>>, b: seq<seq<string>>, k: nat)
    requires multiset(a) == multiset(b)
    ensures multiset(Keys(a, k)) == multiset(Keys(b, k))
  {
    MapMultiset(a, b, (row: seq<string>) => Field(row, k));
  }

  /** Mapping a function over two permutations of each other gives two
      permutations of each other. */
  lemma {:induction false} MapMultiset<T, K>(a: seq<T>, b: seq<T>, f: T -> K)
    requires multiset(a) == multiset(b)
    ensures multiset(MapSeq(f, a)) == multiset(MapSeq(f, b))
    decreases |a|
  {
    assert |a| == |multiset(a)| == |multiset(b)| == |b|;
    if a != [] {
      assert a[0] in multiset(b);
      var j :| 0 <= j < |b| && b[j] == a[0];
      var b' := b[..j] + b[j + 1..];
      assert b == b[..j] + [b[j]] + b[j + 1..];
      assert a == [a[0]] + a[1..];
      assert multiset(b) == multiset(b[..j]) + multiset{b[j]} + multiset(b[j + 1..]);
      assert multiset(b') == multiset(b) - multiset{a[0]};
      assert multiset(a[1..]) == multiset(a) - multiset{a[0]};
      MapMultiset(a[1..], b', f);
      MapSeqAppend(f, [a[0]], a[1..]);
      MapSeqAppend(f, b[..j] + [b[j]], b[j + 1..]);
      MapSeqAppend(f, b[..j], [b[j]]);
      MapSeqAppend(f, b[..j], b[j + 1..]);
    }
  }

  lemma MapSeqAppend<T, K>(f: T -> K, x: seq<T>, y: seq<T>)
    ensures MapSeq(f, x + y) == MapSeq(f, x) + MapSeq(f, y)
  {
  }
}
