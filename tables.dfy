/** The tables pandas hands back for `read_csv(..., dtype="str")`: a header of
    column names and rows of text cells, a missing value (`NaN`) being `None`. */
module Tables {
  import opened Wrappers

  type Cell = Option<string>

  datatype Table = Table(columns: seq<string>, rows: seq<seq<Cell>>)

  predicate Rectangular(t: Table)
  {
    forall i :: 0 <= i < |t.rows| ==> |t.rows[i]| == |t.columns|
  }

  predicate Distinct(names: seq<string>)
  {
    forall i, j :: 0 <= i < j < |names| ==> names[i] != names[j]
  }

  predicate WellFormed(t: Table) { Rectangular(t) && Distinct(t.columns) }

  /** A table as `read_csv` builds it: every row has one cell per column and
      no column name repeats. */
  type Frame = t: Table | WellFormed(t) witness Table([], [])

  /** Position of a column name. */
  function IndexOf(names: seq<string>, c: string): (i: nat)
    requires c in names
    ensures i < |names| && names[i] == c && c !in names[..i]
  {
    if names[0] == c then 0
    else
      var i := 1 + IndexOf(names[1..], c);
      assert names[..i] == [names[0]] + names[1..][..i - 1];
      i
  }

  /** `t[c]`: the values of one column, top to bottom. */
  function Column(t: Table, c: string): (col: seq<Cell>)
    requires c in t.columns && Rectangular(t)
    ensures |col| == |t.rows|
  {
    var j := IndexOf(t.columns, c);
    seq(|t.rows|, i requires 0 <= i < |t.rows| => t.rows[i][j])
  }

  /** `[c for c in requested if c in columns]`. */
  function Available(requested: seq<string>, columns: seq<string>): (r: seq<string>)
    ensures forall c :: c in r <==> c in requested && c in columns
    decreases |requested|
  {
    if requested == [] then []
    else if requested[0] in columns then [requested[0]] + Available(requested[1..], columns)
    else Available(requested[1..], columns)
  }

  /** `[c for c in requested if c not in columns]`. */
  function Missing(requested: seq<string>, columns: seq<string>): (r: seq<string>)
    ensures forall c :: c in r <==> c in requested && c !in columns
    decreases |requested|
  {
    if requested == [] then []
    else if requested[0] !in columns then [requested[0]] + Missing(requested[1..], columns)
    else Missing(requested[1..], columns)
  }

  /** `a` lists some of the elements of `b`, in `b`'s order. */
  predicate SubsequenceOf(a: seq<string>, b: seq<string>)
    decreases |b|
  {
    if a == [] then true
    else if b == [] then false
    else (a[0] == b[0] && SubsequenceOf(a[1..], b[1..])) || SubsequenceOf(a, b[1..])
  }

  /** The two comprehensions split the request without losing, duplicating
      or reordering a name: both keep the request's order and together they
      hold every requested name exactly as often as the request does. */
  lemma PartitionPreservesRequest(requested: seq<string>, columns: seq<string>)
    ensures SubsequenceOf(Available(requested, columns), requested)
    ensures SubsequenceOf(Missing(requested, columns), requested)
    ensures multiset(Available(requested, columns)) + multiset(Missing(requested, columns)) == multiset(requested)
  {
    AvailableInOrder(requested, columns);
    MissingInOrder(requested, columns);
    PartitionCounts(requested, columns);
  }

  lemma {:induction false} AvailableInOrder(requested: seq<string>, columns: seq<string>)
    ensures SubsequenceOf(Available(requested, columns), requested)
    decreases |requested|
  {
    if requested != [] {
      var a := Available(requested[1..], columns);
      AvailableInOrder(requested[1..], columns);
      if requested[0] in columns {
        assert ([requested[0]] + a)[1..] == a;
      } else {
        SubsequenceDropHead(a, requested);
      }
    }
  }

  lemma {:induction false} MissingInOrder(requested: seq<string>, columns: seq<string>)
    ensures SubsequenceOf(Missing(requested, columns), requested)
    decreases |requested|
  {
    if requested != [] {
      var m := Missing(requested[1..], columns);
      MissingInOrder(requested[1..], columns);
      if requested[0] !in columns {
        assert ([requested[0]] + m)[1..] == m;
      } else {
        SubsequenceDropHead(m, requested);
      }
    }
  }

  lemma {:induction false} PartitionCounts(requested: seq<string>, columns: seq<string>)
    ensures multiset(Available(requested, columns)) + multiset(Missing(requested, columns)) == multiset(requested)
    decreases |requested|
  {
    if requested != [] {
      PartitionCounts(requested[1..], columns);
      assert requested == [requested[0]] + requested[1..];
    }
  }

  lemma SubsequenceDropHead(a: seq<string>, b: seq<string>)
    requires b != [] && SubsequenceOf(a, b[1..])
    ensures SubsequenceOf(a, b)
  {
  }

  /** Every requested name lands in exactly one of the two lists. */
  lemma PartitionIsExact(requested: seq<string>, columns: seq<string>, c: string)
    requires c in requested
    ensures (c in Available(requested, columns)) != (c in Missing(requested, columns))
    ensures c in Available(requested, columns) <==> c in columns
  {
  }

  /** `t[cols]`: the named columns, in the order asked for, every row kept. */
  function Select(t: Table, cols: seq<string>): (r: Table)
    requires Rectangular(t) && forall c :: c in cols ==> c in t.columns
    ensures Rectangular(r) && r.columns == cols && |r.rows| == |t.rows|
    ensures forall c :: c in cols ==> Column(r, c) == Column(t, c)
  {
    var r := Table(cols, seq(|t.rows|, i requires 0 <= i < |t.rows| =>
                     seq(|cols|, j requires 0 <= j < |cols| => t.rows[i][IndexOf(t.columns, cols[j])])));
    r
  }

  /** Filtering a list with distinct elements keeps them distinct. */
  lemma {:induction false} AvailableDistinct(requested: seq<string>, columns: seq<string>)
    requires Distinct(requested)
    ensures Distinct(Available(requested, columns))
    decreases |requested|
  {
    if requested != [] {
      assert Distinct(requested[1..]) by {
        forall i, j | 0 <= i < j < |requested[1..]| ensures requested[1..][i] != requested[1..][j] {
          assert requested[1..][i] == requested[i + 1] && requested[1..][j] == requested[j + 1];
        }
      }
      AvailableDistinct(requested[1..], columns);
      var a := Available(requested[1..], columns);
      if requested[0] in columns {
        assert requested[0] !in requested[1..];
        assert requested[0] !in a;
        var r := [requested[0]] + a;
        forall i, j | 0 <= i < j < |r| ensures r[i] != r[j] {
          if i == 0 { assert r[j] == a[j - 1] && r[j] in a; }
          else { assert r[i] == a[i - 1] && r[j] == a[j - 1]; }
        }
      }
    }
  }

  /** The projection `download_with_config` applies after reading a CSV from
      disk: the requested names that exist, in the order requested. A missing
      name is dropped, never an error. */
  function Project(t: Table, requested: seq<string>): (r: Table)
    requires Rectangular(t)
    ensures Rectangular(r)
    ensures forall c :: c in r.columns <==> c in requested && c in t.columns
    ensures SubsequenceOf(r.columns, requested) && |r.rows| == |t.rows|
    ensures forall c :: c in r.columns ==> Column(r, c) == Column(t, c)
  {
    PartitionPreservesRequest(requested, t.columns);
    Select(t, Available(requested, t.columns))
  }

  /** `read_csv(..., usecols=cols)`: every requested name must be a column
      (otherwise pandas raises, naming the absent ones); the kept columns come
      in file order, whatever order they were asked in. */
  function UseCols(t: Frame, cols: seq<string>): (r: Result<Frame, seq<string>>)
    ensures r.Err? <==> Missing(cols, t.columns) != []
    ensures r.Err? ==> r.error == Missing(cols, t.columns)
    ensures r.Ok? ==> (forall c :: c in r.value.columns <==> c in cols)
    ensures r.Ok? ==> SubsequenceOf(r.value.columns, t.columns) && |r.value.rows| == |t.rows|
    ensures r.Ok? ==> forall c :: c in r.value.columns ==> Column(r.value, c) == Column(t, c)
  {
    if Missing(cols, t.columns) != [] then Err(Missing(cols, t.columns))
    else
      assert forall c :: c in cols ==> c in t.columns;
      AvailableDistinct(t.columns, cols);
      PartitionPreservesRequest(t.columns, cols);
      var r: Frame := Select(t, Available(t.columns, cols));
      Ok(r)
  }

  /** Reading only some columns agrees value for value with reading all of
      them and projecting afterwards, as long as every name exists and the
      names are asked for in file order. */
  lemma PushdownMatchesProjection(t: Frame, cols: seq<string>)
    requires Distinct(cols) && SubsequenceOf(cols, t.columns)
    requires Missing(cols, t.columns) == []
    ensures UseCols(t, cols) == Ok(Project(t, cols))
  {
    SubsequenceAllIn(cols, t.columns);
    FileOrderRequest(cols, t.columns);
  }

  lemma {:induction false} SubsequenceAllIn(a: seq<string>, b: seq<string>)
    requires SubsequenceOf(a, b)
    ensures forall c :: c in a ==> c in b
    decreases |b|
  {
    if a != [] && b != [] {
      if a[0] == b[0] && SubsequenceOf(a[1..], b[1..]) {
        SubsequenceAllIn(a[1..], b[1..]);
        assert a == [a[0]] + a[1..];
      } else {
        SubsequenceAllIn(a, b[1..]);
      }
    }
  }

  /** Filtering the file's columns by a request that is already in file order
      gives the request back. */
  lemma {:induction false} FileOrderRequest(cols: seq<string>, columns: seq<string>)
    requires Distinct(cols) && Distinct(columns) && SubsequenceOf(cols, columns)
    ensures Available(columns, cols) == cols
    ensures Available(cols, columns) == cols
    decreases |columns|
  {
    SubsequenceAllIn(cols, columns);
    AvailableAllIn(cols, columns);
    if columns != [] {
      assert Distinct(columns[1..]) by {
        forall i, j | 0 <= i < j < |columns[1..]| ensures columns[1..][i] != columns[1..][j] {
          assert columns[1..][i] == columns[i + 1] && columns[1..][j] == columns[j + 1];
        }
      }
      if cols != [] && cols[0] == columns[0] && SubsequenceOf(cols[1..], columns[1..]) {
        assert Distinct(cols[1..]) by {
          forall i, j | 0 <= i < j < |cols[1..]| ensures cols[1..][i] != cols[1..][j] {
            assert cols[1..][i] == cols[i + 1] && cols[1..][j] == cols[j + 1];
          }
        }
        FileOrderRequest(cols[1..], columns[1..]);
        AvailableIgnoresAbsent(columns[1..], cols[1..], cols[0]);
        assert cols == [cols[0]] + cols[1..];
      } else {
        // columns[0] cannot be requested: it would have to be matched
        // further on, where it does not occur again
        FileOrderRequest(cols, columns[1..]);
      }
    }
  }

  lemma {:induction false} AvailableIgnoresAbsent(columns: seq<string>, cols: seq<string>, x: string)
    requires x !in columns
    ensures Available(columns, [x] + cols) == Available(columns, cols)
    decreases |columns|
  {
    if columns != [] {
      AvailableIgnoresAbsent(columns[1..], cols, x);
    }
  }

  lemma {:induction false} AvailableAllIn(cols: seq<string>, columns: seq<string>)
    requires forall c :: c in cols ==> c in columns
    ensures Available(cols, columns) == cols
    decreases |cols|
  {
    if cols != [] {
      AvailableAllIn(cols[1..], columns);
    }
  }

  /** Asking for columns in a different order than the file's gives different
      tables on the two read paths: `usecols` keeps file order, the post-read
      filter keeps the request's order. */
  lemma ReadPathsOrderDiffer(t: Frame)
    requires t.columns == ["A", "B"]
    ensures UseCols(t, ["B", "A"]).Ok? && UseCols(t, ["B", "A"]).value.columns == ["A", "B"]
    ensures Project(t, ["B", "A"]).columns == ["B", "A"]
  {
    var req := ["B", "A"];
    assert req[1..] == ["A"] && req[1..][1..] == [];
    assert t.columns[1..] == ["B"] && t.columns[1..][1..] == [];
    assert Missing(req, t.columns) == [];
    assert "A" in req && "B" in req;
    assert Available(t.columns[1..][1..], req) == [];
    assert Available(t.columns[1..], req) == ["B"];
    assert Available(t.columns, req) == ["A"] + ["B"];
    assert Available(req, t.columns) == req;
  }

  /** The projection scenario of the daily LEI file: three columns read, two
      requested, two kept with every row. */
  lemma LeiProjectionExample(t: Frame)
    requires t.columns == ["LEI", "Entity.LegalName", "Entity.LegalJurisdiction"]
    ensures Project(t, ["LEI", "Entity.LegalJurisdiction"]).columns == ["LEI", "Entity.LegalJurisdiction"]
    ensures |Project(t, ["LEI", "Entity.LegalJurisdiction"]).rows| == |t.rows|
  {
    var req := ["LEI", "Entity.LegalJurisdiction"];
    assert req[1..] == ["Entity.LegalJurisdiction"] && req[1..][1..] == [];
    assert Available(req, t.columns) == req;
  }
}
