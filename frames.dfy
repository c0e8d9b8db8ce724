/**
 * The part of pandas the interpreter relies on: a data frame as a list of
 * column names and a list of rows, column selection `df[columns]`, and the
 * inner equality join `pd.merge(left, right, left_on=.., right_on=.., how='inner')`.
 */
module Frames {
  import opened Wrappers

  /** A cell value as read from a CSV file. */
  datatype Value = Null | Bool(b: bool) | Int(i: int) | Real(r: real) | Str(s: string)

  /** A row maps column names to cell values. */
  type Row = map<string, Value>

  /** A frame: its column names in order and its rows in order. */
  datatype Table = Table(columns: seq<string>, rows: seq<Row>)

  /** The exceptions the interpreter can run into. */
  datatype Exception =
    | IndexError                  // a `split` piece that is not there
    | KeyError(keys: seq<string>) // a table, column or join key that is not there
    | MergeError                  // a join whose suffixed column names collide
    | QueryError                  // `DataFrame.query` rejected the condition

  /** The value of column `c` in `row` (missing reads as `Null`). */
  function Cell(row: Row, c: string): Value {
    if c in row then row[c] else Null
  }

  /** The names of a column list, as a set. */
  function ColumnSet(cols: seq<string>): set<string> {
    set c | c in cols
  }

  /** Every row has exactly the frame's columns. */
  ghost predicate WellFormed(t: Table) {
    forall k :: 0 <= k < |t.rows| ==> t.rows[k].Keys == ColumnSet(t.columns)
  }

  /** No name occurs twice. */
  predicate Distinct(names: seq<string>) {
    forall i, j | 0 <= i < j < |names| :: names[i] != names[j]
  }

  /** The names of `cols` that are not in `have`, in order. */
  function Missing(cols: seq<string>, have: seq<string>): (r: seq<string>)
    ensures forall c :: c in r <==> c in cols && c !in have
  {
    if |cols| == 0 then []
    else (if cols[0] in have then [] else [cols[0]]) + Missing(cols[1..], have)
  }

  // ---------------------------------------------------------------------
  // df[columns]

  /** A row cut down to the listed columns. */
  function RestrictRow(row: Row, cols: seq<string>): Row {
    map c | c in cols :: Cell(row, c)
  }

  /** `t[cols]`: the frame with the listed columns in the listed order, or a
      KeyError naming every listed column the frame lacks. */
  function Project(t: Table, cols: seq<string>): (r: Result<Table, Exception>)
    ensures r.Ok? <==> forall c :: c in cols ==> c in t.columns
    ensures r.Err? ==> r.error == KeyError(Missing(cols, t.columns))
    ensures r.Ok? ==> r.value.columns == cols && |r.value.rows| == |t.rows| && WellFormed(r.value)
    ensures r.Ok? ==> forall k, c :: 0 <= k < |t.rows| && c in cols ==>
      Cell(r.value.rows[k], c) == Cell(t.rows[k], c)
  {
    var missing := Missing(cols, t.columns);
    if |missing| > 0 then
      assert missing[0] in missing;
      Err(KeyError(missing))
    else
      Ok(Table(cols, seq(|t.rows|, k requires 0 <= k < |t.rows| => RestrictRow(t.rows[k], cols))))
  }

  /** Selecting all of a well-formed frame's columns, in order, is the identity. */
  lemma ProjectAll(t: Table)
    requires WellFormed(t)
    ensures Project(t, t.columns) == Ok(t)
  {
    var r := Project(t, t.columns).value;
    forall k | 0 <= k < |t.rows| ensures r.rows[k] == t.rows[k] {
      assert r.rows[k].Keys == t.rows[k].Keys;
    }
    assert r.rows == t.rows;
  }

  // ---------------------------------------------------------------------
  // pd.merge(left, right, left_on=lk, right_on=rk, how='inner')

  /** Where a column of the merged frame takes its values from. */
  datatype Origin = FromLeft(name: string) | FromRight(name: string)

  /** The merged frame's columns: output name and origin, in order. */
  type Layout = seq<(string, Origin)>

  /** `cols` with every occurrence of `x` removed. */
  function Without(cols: seq<string>, x: string): (r: seq<string>)
    ensures forall c :: c in r <==> c in cols && c != x
  {
    if |cols| == 0 then []
    else (if cols[0] == x then [] else [cols[0]]) + Without(cols[1..], x)
  }

  /** A column name, with `suffix` appended when the other side has it too. */
  function Suffixed(c: string, others: seq<string>, suffix: string): string {
    if c in others then c + suffix else c
  }

  /** The columns the right side contributes: all of them, except that a right
      key with the same name as the left key is kept once, from the left. */
  function RightKept(rcols: seq<string>, lk: string, rk: string): seq<string> {
    if lk == rk then Without(rcols, rk) else rcols
  }

  /** The merged columns: the left ones, then the kept right ones; a name both
      sides have gets `_x` on the left and `_y` on the right. */
  function MergeLayout(lcols: seq<string>, rcols: seq<string>, lk: string, rk: string): (r: Layout)
    ensures |r| == |lcols| + |RightKept(rcols, lk, rk)|
  {
    var kept := RightKept(rcols, lk, rk);
    seq(|lcols|, i requires 0 <= i < |lcols| => (Suffixed(lcols[i], kept, "_x"), FromLeft(lcols[i])))
    + seq(|kept|, j requires 0 <= j < |kept| => (Suffixed(kept[j], lcols, "_y"), FromRight(kept[j])))
  }

  /** The output names of a layout. */
  function Names(layout: Layout): (r: seq<string>)
    ensures |r| == |layout|
    ensures forall k :: 0 <= k < |layout| ==> r[k] == layout[k].0
  {
    seq(|layout|, k requires 0 <= k < |layout| => layout[k].0)
  }

  /** The value a column of origin `o` takes from the pair of rows `l`, `r`. */
  function Pick(o: Origin, l: Row, r: Row): Value {
    match o
    case FromLeft(c) => Cell(l, c)
    case FromRight(c) => Cell(r, c)
  }

  /** The merged row of `l` and `r`. */
  function CombineRow(layout: Layout, l: Row, r: Row): (row: Row)
    ensures row.Keys == ColumnSet(Names(layout))
    decreases |layout|
  {
    if |layout| == 0 then map[]
    else
      var n := |layout| - 1;
      var row := CombineRow(layout[..n], l, r)[layout[n].0 := Pick(layout[n].1, l, r)];
      assert Names(layout) == Names(layout[..n]) + [layout[n].0];
      row
  }

  /** With distinct output names, each merged column holds the value its origin gives. */
  lemma {:induction false} CombineRowAt(layout: Layout, l: Row, r: Row, k: nat)
    requires Distinct(Names(layout)) && k < |layout|
    ensures CombineRow(layout, l, r)[layout[k].0] == Pick(layout[k].1, l, r)
    decreases |layout|
  {
    var n := |layout| - 1;
    if k < n {
      var front := layout[..n];
      assert Names(front) == Names(layout)[..n];
      assert layout[k].0 != layout[n].0 by {
        assert Names(layout)[k] != Names(layout)[n];
      }
      CombineRowAt(front, l, r, k);
    }
  }

  /** The pairs of `l` with the rows of `rs` whose keys agree, in the order of `rs`. */
  function MatchRow(layout: Layout, l: Row, rs: seq<Row>, lk: string, rk: string): seq<Row>
    decreases |rs|
  {
    if |rs| == 0 then []
    else
      (if Cell(l, lk) == Cell(rs[0], rk) then [CombineRow(layout, l, rs[0])] else [])
      + MatchRow(layout, l, rs[1..], lk, rk)
  }

  /** The inner join of two row lists: every left row with its matches, left rows in order. */
  function JoinRows(layout: Layout, ls: seq<Row>, rs: seq<Row>, lk: string, rk: string): seq<Row>
    decreases |ls|
  {
    if |ls| == 0 then []
    else MatchRow(layout, ls[0], rs, lk, rk) + JoinRows(layout, ls[1..], rs, lk, rk)
  }

  /** `pd.merge(left, right, left_on=lk, right_on=rk, how='inner')`: a KeyError
      when a key column is missing, a MergeError when suffixing leaves two
      columns with one name, and otherwise the inner equality join. */
  function Merge(left: Table, right: Table, lk: string, rk: string): (r: Result<Table, Exception>)
    ensures r.Err? && r.error.KeyError? <==> lk !in left.columns || rk !in right.columns
    ensures r.Ok? <==>
      lk in left.columns && rk in right.columns && Distinct(Names(MergeLayout(left.columns, right.columns, lk, rk)))
    ensures r.Ok? ==> r.value.columns == Names(MergeLayout(left.columns, right.columns, lk, rk))
    ensures r.Ok? ==> WellFormed(r.value)
  {
    var missing := Missing([lk], left.columns) + Missing([rk], right.columns);
    if |missing| > 0 then
      assert missing[0] in missing;
      Err(KeyError(missing))
    else
      var layout := MergeLayout(left.columns, right.columns, lk, rk);
      if !Distinct(Names(layout)) then Err(MergeError)
      else
        var rows := JoinRows(layout, left.rows, right.rows, lk, rk);
        JoinRowsShape(layout, left.rows, right.rows, lk, rk);
        Ok(Table(Names(layout), rows))
  }

  /** Every joined row has the layout's columns. */
  lemma {:induction false} JoinRowsShape(layout: Layout, ls: seq<Row>, rs: seq<Row>, lk: string, rk: string)
    ensures forall k :: 0 <= k < |JoinRows(layout, ls, rs, lk, rk)| ==>
      JoinRows(layout, ls, rs, lk, rk)[k].Keys == ColumnSet(Names(layout))
    decreases |ls|
  {
    if |ls| > 0 {
      JoinRowsShape(layout, ls[1..], rs, lk, rk);
      JoinMatchSound(layout, ls[0], rs, lk, rk);
    }
  }

  /** `row` is the merged row of `l` and `r`, whose key values agree. */
  predicate Joins(layout: Layout, row: Row, l: Row, r: Row, lk: string, rk: string) {
    Cell(l, lk) == Cell(r, rk) && row == CombineRow(layout, l, r)
  }

  /** Every row matched for `l` pairs it with some row of `rs` whose key agrees. */
  lemma {:induction false} JoinMatchSound(layout: Layout, l: Row, rs: seq<Row>, lk: string, rk: string)
    ensures forall k :: 0 <= k < |MatchRow(layout, l, rs, lk, rk)| ==>
      exists j :: 0 <= j < |rs| && Joins(layout, MatchRow(layout, l, rs, lk, rk)[k], l, rs[j], lk, rk)
    decreases |rs|
  {
    var out := MatchRow(layout, l, rs, lk, rk);
    if |rs| == 0 {
      assert out == [];
    } else {
      var tail := MatchRow(layout, l, rs[1..], lk, rk);
      JoinMatchSound(layout, l, rs[1..], lk, rk);
      var head := if Cell(l, lk) == Cell(rs[0], rk) then [CombineRow(layout, l, rs[0])] else [];
      assert out == head + tail;
      forall k | 0 <= k < |out|
        ensures exists j :: 0 <= j < |rs| && Joins(layout, out[k], l, rs[j], lk, rk)
      {
        if k < |head| {
          assert Joins(layout, out[k], l, rs[0], lk, rk);
        } else {
          assert out[k] == tail[k - |head|];
          ShiftWitness(layout, out[k], l, rs, lk, rk);
        }
      }
    }
  }

  /** A partner found among `rs[1..]` is a partner in `rs`. */
  lemma ShiftWitness(layout: Layout, row: Row, l: Row, rs: seq<Row>, lk: string, rk: string)
    requires |rs| > 0
    requires exists j :: 0 <= j < |rs[1..]| && Joins(layout, row, l, rs[1..][j], lk, rk)
    ensures exists j :: 0 <= j < |rs| && Joins(layout, row, l, rs[j], lk, rk)
  {
    var j :| 0 <= j < |rs[1..]| && Joins(layout, row, l, rs[1..][j], lk, rk);
    assert rs[1..][j] == rs[j + 1];
  }

  /** Every row matched for `l` for a row of `rs` whose key agrees is in the result. */
  lemma {:induction false} JoinMatchComplete(layout: Layout, l: Row, rs: seq<Row>, lk: string, rk: string, j: nat)
    requires j < |rs| && Cell(l, lk) == Cell(rs[j], rk)
    ensures CombineRow(layout, l, rs[j]) in MatchRow(layout, l, rs, lk, rk)
    decreases |rs|
  {
    if j > 0 {
      JoinMatchComplete(layout, l, rs[1..], lk, rk, j - 1);
      assert rs[1..][j - 1] == rs[j];
    }
  }

  /** Soundness of the join: every output row combines a left row and a right
      row whose key values are equal. */
  lemma {:induction false} JoinRowsSound(layout: Layout, ls: seq<Row>, rs: seq<Row>, lk: string, rk: string)
    ensures forall k :: 0 <= k < |JoinRows(layout, ls, rs, lk, rk)| ==>
      exists i, j :: 0 <= i < |ls| && 0 <= j < |rs| && Joins(layout, JoinRows(layout, ls, rs, lk, rk)[k], ls[i], rs[j], lk, rk)
    decreases |ls|
  {
    var out := JoinRows(layout, ls, rs, lk, rk);
    if |ls| == 0 {
      assert out == [];
    } else {
      var head := MatchRow(layout, ls[0], rs, lk, rk);
      var tail := JoinRows(layout, ls[1..], rs, lk, rk);
      assert out == head + tail;
      JoinMatchSound(layout, ls[0], rs, lk, rk);
      JoinRowsSound(layout, ls[1..], rs, lk, rk);
      forall k | 0 <= k < |out|
        ensures exists i, j :: 0 <= i < |ls| && 0 <= j < |rs| && Joins(layout, out[k], ls[i], rs[j], lk, rk)
      {
        if k < |head| {
          var j :| 0 <= j < |rs| && Joins(layout, head[k], ls[0], rs[j], lk, rk);
          assert out[k] == head[k];
          assert Joins(layout, out[k], ls[0], rs[j], lk, rk);
        } else {
          var i, j :| 0 <= i < |ls[1..]| && 0 <= j < |rs| && Joins(layout, tail[k - |head|], ls[1..][i], rs[j], lk, rk);
          assert ls[1..][i] == ls[i + 1];
          assert out[k] == tail[k - |head|];
          assert Joins(layout, out[k], ls[i + 1], rs[j], lk, rk);
        }
      }
    }
  }

  /** Completeness of the join: every pair of a left row and a right row whose
      key values are equal contributes its combined row. */
  lemma {:induction false} JoinRowsComplete(layout: Layout, ls: seq<Row>, rs: seq<Row>, lk: string, rk: string, i: nat, j: nat)
    requires i < |ls| && j < |rs| && Cell(ls[i], lk) == Cell(rs[j], rk)
    ensures CombineRow(layout, ls[i], rs[j]) in JoinRows(layout, ls, rs, lk, rk)
    decreases |ls|
  {
    if i == 0 {
      JoinMatchComplete(layout, ls[0], rs, lk, rk, j);
    } else {
      JoinRowsComplete(layout, ls[1..], rs, lk, rk, i - 1, j);
      assert ls[1..][i - 1] == ls[i];
    }
  }

  /** The pairs `(i, j)` with `j >= n` such that the right row `j` has the key of `l`. */
  ghost function PairsWith(i: int, l: Row, rs: seq<Row>, lk: string, rk: string, n: nat): set<(int, int)> {
    set j | n <= j < |rs| && Cell(l, lk) == Cell(rs[j], rk) :: (i, j)
  }

  /** The index pairs `(i, j)` with `i >= m` of a left and a right row whose keys are equal. */
  ghost function PairsFrom(ls: seq<Row>, rs: seq<Row>, lk: string, rk: string, m: nat): set<(int, int)> {
    set i, j | m <= i < |ls| && 0 <= j < |rs| && Cell(ls[i], lk) == Cell(rs[j], rk) :: (i, j)
  }

  /** The index pairs of all left and right rows whose keys are equal. */
  ghost function MatchingPairs(ls: seq<Row>, rs: seq<Row>, lk: string, rk: string): set<(int, int)> {
    PairsFrom(ls, rs, lk, rk, 0)
  }

  /** One left row has as many joined rows as right rows that match it. */
  lemma {:induction false} MatchRowCount(layout: Layout, i: int, l: Row, rs: seq<Row>, lk: string, rk: string, n: nat)
    requires n <= |rs|
    ensures |MatchRow(layout, l, rs[n..], lk, rk)| == |PairsWith(i, l, rs, lk, rk, n)|
    decreases |rs| - n
  {
    if n == |rs| {
      assert rs[n..] == [];
      assert PairsWith(i, l, rs, lk, rk, n) == {};
    } else {
      MatchRowCount(layout, i, l, rs, lk, rk, n + 1);
      MatchRowStep(layout, l, rs, lk, rk, n);
      PairsWithStep(i, l, rs, lk, rk, n);
    }
  }

  /** Matching from `n` is matching `rs[n]`, then matching from `n + 1`. */
  lemma MatchRowStep(layout: Layout, l: Row, rs: seq<Row>, lk: string, rk: string, n: nat)
    requires n < |rs|
    ensures |MatchRow(layout, l, rs[n..], lk, rk)| ==
      (if Cell(l, lk) == Cell(rs[n], rk) then 1 else 0) + |MatchRow(layout, l, rs[n + 1..], lk, rk)|
  {
    assert rs[n..][1..] == rs[n + 1..];
  }

  /** The pairs from `n` are the pair at `n`, if it matches, and the pairs from `n + 1`. */
  lemma PairsWithStep(i: int, l: Row, rs: seq<Row>, lk: string, rk: string, n: nat)
    requires n < |rs|
    ensures |PairsWith(i, l, rs, lk, rk, n)| ==
      (if Cell(l, lk) == Cell(rs[n], rk) then 1 else 0) + |PairsWith(i, l, rs, lk, rk, n + 1)|
  {
    var here: set<(int, int)> := if Cell(l, lk) == Cell(rs[n], rk) then {(i, n)} else {};
    var there := PairsWith(i, l, rs, lk, rk, n + 1);
    var all := PairsWith(i, l, rs, lk, rk, n);
    forall p | p in all ensures p in here + there {
      var j :| n <= j < |rs| && Cell(l, lk) == Cell(rs[j], rk) && p == (i, j);
      if j > n {
        assert p in there;
      }
    }
    forall p | p in here + there ensures p in all {
      if p !in here {
        var j :| n + 1 <= j < |rs| && Cell(l, lk) == Cell(rs[j], rk) && p == (i, j);
      }
    }
    assert all == here + there;
    assert here * there == {};
  }

  /** The inner join has one row per matching index pair. */
  lemma {:induction false} JoinRowsCount(layout: Layout, ls: seq<Row>, rs: seq<Row>, lk: string, rk: string, m: nat)
    requires m <= |ls|
    ensures |JoinRows(layout, ls[m..], rs, lk, rk)| == |PairsFrom(ls, rs, lk, rk, m)|
    decreases |ls| - m
  {
    if m == |ls| {
      assert ls[m..] == [];
      assert PairsFrom(ls, rs, lk, rk, m) == {};
    } else {
      var here := PairsWith(m, ls[m], rs, lk, rk, 0);
      var there := PairsFrom(ls, rs, lk, rk, m + 1);
      assert ls[m..][1..] == ls[m + 1..];
      assert rs[0..] == rs;
      MatchRowCount(layout, m, ls[m], rs, lk, rk, 0);
      JoinRowsCount(layout, ls, rs, lk, rk, m + 1);
      assert PairsFrom(ls, rs, lk, rk, m) == here + there;
      assert here * there == {};
    }
  }
}
