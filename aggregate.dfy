/** Group-by aggregation with write-back (`merge_shape_hex` in
    urbanpy/geom/geom.py). The spatial join itself is not modelled: its
    result is the input, one row per point of the left frame and matched
    hexagon, carrying the hexagon's index label (`index_right`, NaN for a
    point a left join kept without a match) and the point's columns. */
module Aggregate {
  import opened Common
  import opened Seqs

  /** The reducers the code documents: 'sum', 'min', 'max'. */
  datatype Reducer = Sum | Min | Max

  /** One row of `gpd.sjoin(shape, hex, ...)`; `None` is a NaN
      `index_right`, which `how='left'` gives a point inside no hexagon. */
  datatype JoinedRow<L> = JoinedRow(indexRight: Option<L>, values: map<string, real>)

  /** A hexagon table: its index labels, one geometry per row, and numeric
      columns keyed by index label; a label missing from a column is NaN. */
  datatype HexFrame<L, G> = HexFrame(index: seq<L>, geometry: seq<G>, columns: map<string, map<L, real>>)

  function Reduce(op: Reducer, vs: seq<real>): real
    requires |vs| > 0
  {
    match op
    case Sum => SumOf(vs)
    case Min => MinOf(vs)
    case Max => MaxOf(vs)
  }

  /** Every joined row carries column `col`. */
  predicate HasColumn<L(==)>(joined: seq<JoinedRow<L>>, col: string) {
    forall i :: 0 <= i < |joined| ==> col in joined[i].values
  }

  /** The labels `groupby('index_right')` forms groups for; it drops the
      NaN key. */
  function GroupKeys<L(==)>(joined: seq<JoinedRow<L>>): set<L> {
    set i | 0 <= i < |joined| && joined[i].indexRight.Some? :: joined[i].indexRight.value
  }

  /** The values of `col` in the joined rows matched to label `c`, in
      order, as a plain recursion over the rows. */
  function GroupValues<L(==)>(joined: seq<JoinedRow<L>>, c: L, col: string): seq<real>
    requires HasColumn(joined, col)
    decreases |joined|
  {
    if |joined| == 0 then []
    else
      var n := |joined| - 1;
      assert HasColumn(joined[..n], col);
      GroupValues(joined[..n], c, col) + (if joined[n].indexRight == Some(c) then [joined[n].values[col]] else [])
  }

  lemma {:induction false} GroupValuesNonEmpty<L>(joined: seq<JoinedRow<L>>, c: L, col: string)
    requires HasColumn(joined, col)
    ensures |GroupValues(joined, c, col)| > 0 <==> c in GroupKeys(joined)
    decreases |joined|
  {
    if |joined| > 0 {
      var n := |joined| - 1;
      assert HasColumn(joined[..n], col);
      GroupValuesNonEmpty(joined[..n], c, col);
      assert GroupKeys(joined) == GroupKeys(joined[..n]) +
               (if joined[n].indexRight.Some? then {joined[n].indexRight.value} else {});
    }
  }

  /** The group of label `c` for column `col`: the values `groupby` hands
      to the reducer; it is non-empty exactly for the labels it forms a
      group for. */
  function Group<L(==)>(joined: seq<JoinedRow<L>>, c: L, col: string): (g: seq<real>)
    requires HasColumn(joined, col)
    ensures |g| > 0 <==> c in GroupKeys(joined)
  {
    GroupValuesNonEmpty(joined, c, col);
    GroupValues(joined, c, col)
  }

  /** One column of `joined.groupby('index_right').agg(agg)`: a value for
      each label that has joined rows. */
  function Aggregated<L(==)>(joined: seq<JoinedRow<L>>, col: string, op: Reducer): (m: map<L, real>)
    requires HasColumn(joined, col)
    ensures m.Keys == GroupKeys(joined)
  {
    map c | c in GroupKeys(joined) :: Reduce(op, Group(joined, c, col))
  }

  /** The column names of `agg`, a dict, so they are distinct. */
  predicate DistinctNames(agg: seq<(string, Reducer)>) {
    forall i, j :: 0 <= i < j < |agg| ==> agg[i].0 != agg[j].0
  }

  /** Column `col` after the write-back: the old column (all NaN when it
      is new) overwritten at every label that has joined rows. */
  function WrittenBack<L(==)>(columns: map<string, map<L, real>>, col: string, agg: map<L, real>): map<L, real> {
    (if col in columns then columns[col] else map[]) + agg
  }

  /** What the write-back leaves in column `col`, label by label: the
      aggregate where the label has joined rows, the previous value (NaN
      when absent or the column is new) everywhere else. */
  lemma WrittenBackMeaning<L>(columns: map<string, map<L, real>>, col: string,
                              joined: seq<JoinedRow<L>>, op: Reducer)
    requires HasColumn(joined, col)
    ensures var w := WrittenBack(columns, col, Aggregated(joined, col, op));
            (forall c :: c in GroupKeys(joined) ==> c in w && w[c] == Reduce(op, Group(joined, c, col))) &&
            (forall c :: c !in GroupKeys(joined) ==>
               (c in w <==> col in columns && c in columns[col]) &&
               (c in w ==> w[c] == columns[col][c]))
  {
  }

  /** `joined.groupby('index_right').agg(agg)`: for each requested column,
      the aggregate of every label that has joined rows. */
  function GroupAgg<L(==)>(joined: seq<JoinedRow<L>>, agg: seq<(string, Reducer)>): (merged: map<string, map<L, real>>)
    requires DistinctNames(agg)
    requires forall i :: 0 <= i < |agg| ==> HasColumn(joined, agg[i].0)
    ensures forall i :: 0 <= i < |agg| ==>
              agg[i].0 in merged && merged[agg[i].0] == Aggregated(joined, agg[i].0, agg[i].1)
    decreases |agg|
  {
    if |agg| == 0 then map[]
    else
      var n := |agg| - 1;
      assert forall i :: 0 <= i < n ==> agg[..n][i] == agg[i] && agg[i].0 != agg[n].0;
      GroupAgg(joined, agg[..n])[agg[n].0 := Aggregated(joined, agg[n].0, agg[n].1)]
  }

  /** The copy after the first `n` entries of `agg` were written back from
      `merged`: exactly those columns were added or overwritten, and every
      other column is as in `columns`. */
  ghost predicate WrittenUpTo<L>(columns: map<string, map<L, real>>, result: map<string, map<L, real>>,
                                 merged: map<string, map<L, real>>, agg: seq<(string, Reducer)>, n: nat)
    requires n <= |agg|
    requires forall i :: 0 <= i < |agg| ==> agg[i].0 in merged
  {
    (forall col :: col in result <==> col in columns || exists j :: 0 <= j < n && agg[j].0 == col) &&
    (forall col :: col in columns && (forall j :: 0 <= j < n ==> agg[j].0 != col) ==>
       result[col] == columns[col]) &&
    (forall j :: 0 <= j < n ==>
       agg[j].0 in result && result[agg[j].0] == WrittenBack(columns, agg[j].0, merged[agg[j].0]))
  }

  /** Writing back entry `n` of `agg` extends the written prefix by one. */
  lemma WriteBackStep<L>(columns: map<string, map<L, real>>, result: map<string, map<L, real>>,
                         merged: map<string, map<L, real>>, agg: seq<(string, Reducer)>, n: nat)
    requires n < |agg| && DistinctNames(agg)
    requires forall i :: 0 <= i < |agg| ==> agg[i].0 in merged
    requires WrittenUpTo(columns, result, merged, agg, n)
    ensures var key := agg[n].0;
            var column := if key in result then result[key] else map[];
            WrittenUpTo(columns, result[key := column + merged[key]], merged, agg, n + 1)
  {
    var key := agg[n].0;
    var column := if key in result then result[key] else map[];
    var after := result[key := column + merged[key]];
    assert forall j :: 0 <= j < n ==> agg[j].0 != key;
    forall j | 0 <= j < n + 1
      ensures agg[j].0 in after && after[agg[j].0] == WrittenBack(columns, agg[j].0, merged[agg[j].0])
    {
      if j < n {
        assert agg[j].0 != key;
        assert after[agg[j].0] == result[agg[j].0];
      }
    }
  }

  /** The fully written-back copy, read label by label. */
  lemma WrittenUpToAll<L>(columns: map<string, map<L, real>>, result: map<string, map<L, real>>,
                          joined: seq<JoinedRow<L>>, agg: seq<(string, Reducer)>)
    requires DistinctNames(agg)
    requires forall i :: 0 <= i < |agg| ==> HasColumn(joined, agg[i].0)
    requires WrittenUpTo(columns, result, GroupAgg(joined, agg), agg, |agg|)
    ensures forall i :: 0 <= i < |agg| ==>
              var col := agg[i].0;
              col in result &&
              (forall c :: c in GroupKeys(joined) ==>
                 c in result[col] && result[col][c] == Reduce(agg[i].1, Group(joined, c, col))) &&
              (forall c :: c !in GroupKeys(joined) ==>
                 (c in result[col] <==> col in columns && c in columns[col]) &&
                 (c in result[col] ==> result[col][c] == columns[col][c]))
  {
    forall i | 0 <= i < |agg| {
      WrittenBackMeaning(columns, agg[i].0, joined, agg[i].1);
    }
  }

  /** `merge_shape_hex` on a given join result: group by matched hexagon,
      reduce each requested column, and write the results into a copy of
      the hexagon table by index label. */
  method MergeShapeHex<L(==), G>(hex: HexFrame<L, G>, joined: seq<JoinedRow<L>>, agg: seq<(string, Reducer)>)
    returns (retHex: HexFrame<L, G>)
    requires DistinctNames(agg)
    requires forall i :: 0 <= i < |agg| ==> HasColumn(joined, agg[i].0)
    requires forall i :: 0 <= i < |joined| && joined[i].indexRight.Some? ==> joined[i].indexRight.value in hex.index
    ensures retHex.index == hex.index && retHex.geometry == hex.geometry
    ensures forall col :: col in retHex.columns <==>
              col in hex.columns || exists i :: 0 <= i < |agg| && agg[i].0 == col
    ensures forall col :: col in hex.columns && (forall i :: 0 <= i < |agg| ==> agg[i].0 != col) ==>
              retHex.columns[col] == hex.columns[col]
    ensures forall i :: 0 <= i < |agg| ==>
              var col := agg[i].0;
              col in retHex.columns &&
              (forall c :: c in GroupKeys(joined) ==>
                 c in retHex.columns[col] && retHex.columns[col][c] == Reduce(agg[i].1, Group(joined, c, col))) &&
              (forall c :: c !in GroupKeys(joined) ==>
                 (c in retHex.columns[col] <==> col in hex.columns && c in hex.columns[col]) &&
                 (c in retHex.columns[col] ==> retHex.columns[col][c] == hex.columns[col][c]))
  {
    var hexMerge := GroupAgg(joined, agg);
    retHex := hex;  // hex.copy()
    for i := 0 to |agg|
      invariant retHex.index == hex.index && retHex.geometry == hex.geometry
      invariant WrittenUpTo(hex.columns, retHex.columns, hexMerge, agg, i)
    {
      var key := agg[i].0;
      var column := if key in retHex.columns then retHex.columns[key] else map[];
      WriteBackStep(hex.columns, retHex.columns, hexMerge, agg, i);
      retHex := retHex.(columns := retHex.columns[key := column + hexMerge[key]]);
    }
    WrittenUpToAll(hex.columns, retHex.columns, joined, agg);
  }

  /** Grouping is row-local: the group of a label over two batches of joined
      rows is the first batch's group followed by the second's. */
  lemma {:induction false} GroupConcat<L>(a: seq<JoinedRow<L>>, b: seq<JoinedRow<L>>, c: L, col: string)
    requires HasColumn(a, col) && HasColumn(b, col)
    ensures HasColumn(a + b, col)
    ensures GroupValues(a + b, c, col) == GroupValues(a, c, col) + GroupValues(b, c, col)
    decreases |b|
  {
    if |b| == 0 {
      assert a + b == a;
    } else {
      var n := |b| - 1;
      assert (a + b)[..|a + b| - 1] == a + b[..n];
      assert HasColumn(b[..n], col);
      GroupConcat(a, b[..n], c, col);
    }
  }

  /** A joined row with a NaN `index_right` adds nothing to any group. */
  lemma GroupSkipsUnmatched<L>(a: seq<JoinedRow<L>>, b: seq<JoinedRow<L>>, values: map<string, real>,
                               c: L, col: string)
    requires HasColumn(a, col) && HasColumn(b, col) && col in values
    ensures HasColumn(a + [JoinedRow(None, values)] + b, col) && HasColumn(a + b, col)
    ensures Group(a + [JoinedRow(None, values)] + b, c, col) == Group(a + b, c, col)
  {
    var u: seq<JoinedRow<L>> := [JoinedRow(None, values)];
    assert HasColumn(u, col);
    assert GroupValues(u, c, col) == [] by {
      assert u[..0] == [];
    }
    GroupConcat(a, u, c, col);
    assert GroupValues(a + u, c, col) == GroupValues(a, c, col);
    GroupConcat(a + u, b, c, col);
    GroupConcat(a, b, c, col);
  }

  /** A joined row with a NaN `index_right` (a point a left join kept
      without a hexagon) changes no group key and no aggregate, wherever it
      appears. */
  lemma UnmatchedRowsIgnored<L>(a: seq<JoinedRow<L>>, b: seq<JoinedRow<L>>, values: map<string, real>,
                                col: string, op: Reducer)
    requires HasColumn(a, col) && HasColumn(b, col) && col in values
    ensures HasColumn(a + [JoinedRow(None, values)] + b, col) && HasColumn(a + b, col)
    ensures GroupKeys(a + [JoinedRow(None, values)] + b) == GroupKeys(a + b)
    ensures Aggregated(a + [JoinedRow(None, values)] + b, col, op) == Aggregated(a + b, col, op)
  {
    var withU, without := a + [JoinedRow(None, values)] + b, a + b;
    forall i | 0 <= i < |withU| ensures col in withU[i].values {
      if i < |a| {
        assert withU[i] == a[i];
      } else if i > |a| {
        assert withU[i] == b[i - |a| - 1];
      }
    }
    forall i | 0 <= i < |without| ensures col in without[i].values {
      if i < |a| {
        assert without[i] == a[i];
      } else {
        assert without[i] == b[i - |a|];
      }
    }
    forall c ensures Group(withU, c, col) == Group(without, c, col) {
      GroupSkipsUnmatched(a, b, values, c, col);
    }
    assert GroupKeys(withU) == GroupKeys(without) by {
      forall c ensures c in GroupKeys(withU) <==> c in GroupKeys(without) {
        assert |Group(withU, c, col)| > 0 <==> |Group(without, c, col)| > 0;
      }
    }
  }

  /** How a reducer combines two partial results. */
  function Combine(op: Reducer, u: real, v: real): real {
    match op
    case Sum => u + v
    case Min => if u <= v then u else v
    case Max => if u >= v then u else v
  }

  /** Each reducer is a homomorphism over concatenation: reducing a whole
      group equals combining the reductions of any split of it. */
  lemma ReduceConcat(op: Reducer, x: seq<real>, y: seq<real>)
    requires |x| > 0 && |y| > 0
    ensures Reduce(op, x + y) == Combine(op, Reduce(op, x), Reduce(op, y))
  {
    match op
    case Sum => SumOfConcat(x, y);
    case Min =>
      var m, mx, my := MinOf(x + y), MinOf(x), MinOf(y);
      assert forall i :: 0 <= i < |x| ==> x[i] == (x + y)[i];
      assert forall i :: 0 <= i < |y| ==> y[i] == (x + y)[|x| + i];
      assert m in x || m in y;
    case Max =>
      var m, mx, my := MaxOf(x + y), MaxOf(x), MaxOf(y);
      assert forall i :: 0 <= i < |x| ==> x[i] == (x + y)[i];
      assert forall i :: 0 <= i < |y| ==> y[i] == (x + y)[|x| + i];
      assert m in x || m in y;
  }

  /** Aggregating two batches of joined rows at once gives, for a label
      matched in both, the combination of the per-batch aggregates. */
  lemma AggregatedSplits<L>(a: seq<JoinedRow<L>>, b: seq<JoinedRow<L>>, c: L, col: string, op: Reducer)
    requires HasColumn(a, col) && HasColumn(b, col)
    requires c in GroupKeys(a) && c in GroupKeys(b)
    ensures HasColumn(a + b, col) && c in Aggregated(a + b, col, op)
    ensures Aggregated(a + b, col, op)[c] ==
              Combine(op, Aggregated(a, col, op)[c], Aggregated(b, col, op)[c])
  {
    GroupConcat(a, b, c, col);
    assert Group(a + b, c, col) == Group(a, c, col) + Group(b, c, col);
    ReduceConcat(op, Group(a, c, col), Group(b, c, col));
  }

  /** Two cells and four points: two points of cell "A" with values 10
      and 20, one point of cell "B" with value 5, and one point with value 7
      that lies in no hexagon (a left join keeps it with a NaN label). */
  function ExampleJoin(): seq<JoinedRow<string>> {
    [JoinedRow(Some("A"), map["population" := 10.0]),
     JoinedRow(Some("A"), map["population" := 20.0]),
     JoinedRow(Some("B"), map["population" := 5.0]),
     JoinedRow(None, map["population" := 7.0])]
  }

  lemma ExampleKeys()
    ensures HasColumn(ExampleJoin(), "population")
    ensures GroupKeys(ExampleJoin()) == {"A", "B"}
  {
    var joined := ExampleJoin();
    assert joined[0].indexRight == Some("A") && joined[2].indexRight == Some("B");
    forall c | c in GroupKeys(joined) ensures c == "A" || c == "B" {
      var i :| 0 <= i < |joined| && joined[i].indexRight == Some(c);
    }
  }

  lemma ExampleGroups()
    ensures HasColumn(ExampleJoin(), "population")
    ensures Group(ExampleJoin(), "A", "population") == [10.0, 20.0]
    ensures Group(ExampleJoin(), "B", "population") == [5.0]
  {
    var joined := ExampleJoin();
    var j1, j2, j3 := joined[..1], joined[..2], joined[..3];
    assert j1 == [joined[0]] && j2[..1] == j1 && j3[..2] == j2 && joined[..3] == j3;
    assert GroupValues(j1, "A", "population") == [10.0];
    assert GroupValues(j2, "A", "population") == [10.0, 20.0];
    assert GroupValues(j3, "A", "population") == [10.0, 20.0];
    assert GroupValues(j1, "B", "population") == [];
    assert GroupValues(j2, "B", "population") == [];
    assert GroupValues(j3, "B", "population") == [5.0];
  }

  /** Summing the example gives A = 30 and B = 5; the unmatched point
      counts for no cell, and any other cell has no aggregate, so its column
      stays NaN after the write-back. */
  lemma SumExample()
    ensures HasColumn(ExampleJoin(), "population")
    ensures Aggregated(ExampleJoin(), "population", Sum) == map["A" := 30.0, "B" := 5.0]
  {
    ExampleKeys();
    ExampleGroups();
    assert [5.0][..0] == [];
    assert SumOf([5.0]) == SumOf([]) + 5.0 == 5.0;
    assert [10.0, 20.0][..1] == [10.0];
    assert SumOf([10.0]) == SumOf([]) + 10.0 == 10.0 by { assert [10.0][..0] == []; }
    assert SumOf([10.0, 20.0]) == SumOf([10.0]) + 20.0 == 30.0;
  }
}
