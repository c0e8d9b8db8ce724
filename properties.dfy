/**
 * What `execute_sql_query_on_df` does, stated by position in the query
 * string rather than by the chain of `split` calls the program uses: which
 * table it looks up, when it gives up, which clause texts it extracts, which
 * condition string and which frame reach `DataFrame.query`, and what the
 * join and the column selection produce.
 */
module QueryProperties {
  import opened Wrappers
  import opened PyStr
  import opened Frames
  import opened Interpreter

  // ---------------------------------------------------------------------
  // The table name

  /** `split(sep)[1]` exists exactly when `sep` occurs, and it is the text
      between the first and the second `sep`. */
  lemma SecondPiece(s: string, sep: string)
    requires |sep| > 0
    ensures Nth(Split(s, sep), 1).Some? <==> Contains(s, sep)
    ensures Contains(s, sep) ==> Nth(Split(s, sep), 1) == Some(Between(s, sep))
  {
    SplitPieces(s, sep);
  }

  /** There is a name to look up: `FROM` occurs and something other than
      white space stands between it and the next `FROM`. */
  predicate HasName(q: string) {
    Contains(q, "FROM") && !AllSpace(Between(q, "FROM"))
  }

  /** The first white-space-delimited word of the text between the first and
      the second `FROM` (`query.split("FROM")[1]`): `SELECT a FROM TFROM`
      gives `T`. */
  function FromSegmentWord(q: string): string
    requires HasName(q)
  {
    var segment := Between(q, "FROM");
    SplitWsEmpty(segment);
    SplitWs(segment)[0]
  }

  /** That word, upper-cased. */
  function LookupName(q: string): string
    requires HasName(q)
  {
    Upper(FromSegmentWord(q))
  }

  /** Without `FROM` there is no second piece, and the lookup raises. */
  lemma NameWithoutFrom(q: string)
    requires !Contains(q, "FROM")
    ensures TableName(q) == None
  {
    SecondPiece(q, "FROM");
  }

  /** With only white space after `FROM`, `split()` finds nothing, and the
      lookup raises. */
  lemma NameWithoutWord(q: string)
    requires Contains(q, "FROM") && AllSpace(Between(q, "FROM"))
    ensures TableName(q) == None
  {
    SecondPiece(q, "FROM");
    SplitWsEmpty(Between(q, "FROM"));
  }

  /** The name is taken from the first word of the piece after `FROM`. */
  lemma NameFromSegment(q: string, segment: string)
    requires Nth(Split(q, "FROM"), 1) == Some(segment) && !AllSpace(segment)
    ensures TableName(q) == Some(Upper(Strip(SplitWs(segment)[0])))
  {
    SplitWsEmpty(segment);
  }

  /** With a word after `FROM`, that word is the name, upper-cased. */
  lemma NameFromWord(q: string)
    requires HasName(q)
    ensures TableName(q) == Some(LookupName(q))
  {
    var segment := Between(q, "FROM");
    assert TableName(q) == Some(Upper(Strip(SplitWs(segment)[0]))) by {
      SecondPiece(q, "FROM");
      NameFromSegment(q, segment);
    }
    SplitWsEmpty(segment);
    StripToken(SplitWs(segment)[0]);
  }

  /** The looked-up name is the first word of the text between the first and
      the second `FROM`, upper-cased; without such a word the lookup raises. */
  lemma TableNameByPosition(q: string)
    ensures TableName(q).None? <==> !HasName(q)
    ensures HasName(q) ==> TableName(q) == Some(LookupName(q))
    ensures HasName(q) ==> exists a: nat :: FirstTokenAt(Between(q, "FROM"), FromSegmentWord(q), a)
  {
    if !Contains(q, "FROM") {
      NameWithoutFrom(q);
    } else if AllSpace(Between(q, "FROM")) {
      NameWithoutWord(q);
    } else {
      NameFromWord(q);
      SplitWsEmpty(Between(q, "FROM"));
      assert FromSegmentWord(q) == SplitWs(Between(q, "FROM"))[0];
      SplitWsFirst(Between(q, "FROM"));
    }
  }

  /** The table name is upper-case: no ASCII lower-case letter is left in it. */
  lemma NameIsUpperCase(q: string)
    requires TableName(q).Some?
    ensures forall k :: 0 <= k < |TableName(q).value| ==> !('a' <= TableName(q).value[k] <= 'z')
  {
    var afterFrom := Nth(Split(q, "FROM"), 1).value;
    UpperShape(Strip(SplitWs(afterFrom)[0]));
  }

  // ---------------------------------------------------------------------
  // Giving up before the clauses are looked at

  /** Without `FROM`, or with only white space after it, the IndexError is
      caught and the result is the empty frame. */
  lemma NoNameIsEmpty(q: string, catalog: Catalog, filter: Filter)
    requires !HasName(q)
    ensures Execute(q, catalog, filter) == Empty(Raised(IndexError))
  {
    TableNameByPosition(q);
  }

  /** A name that is not in the catalog gives the empty frame, whatever
      else the query says. */
  lemma UnknownTableIsEmpty(q: string, catalog: Catalog, filter: Filter)
    requires HasName(q) && LookupName(q) !in catalog
    ensures Execute(q, catalog, filter) == Empty(TableNotFound(LookupName(q)))
  {
    TableNameByPosition(q);
  }

  /** A found table does not help a query that does not start with `SELECT`
      once stripped. */
  lemma NotSelectIsEmpty(q: string, catalog: Catalog, filter: Filter)
    requires HasName(q) && LookupName(q) in catalog
    requires !StartsWith(Strip(q), "SELECT")
    ensures Execute(q, catalog, filter) == Empty(InvalidFormat(Strip(q)))
  {
    TableNameByPosition(q);
  }

  // ---------------------------------------------------------------------
  // The clause texts

  /** The query once stripped and with newlines turned into spaces. */
  function Normalized(q: string): string {
    Flatten(Strip(q))
  }

  /** Turning newlines into spaces is the character map `\n` to space. */
  lemma FlattenIsMap(s: string)
    ensures Flatten(s) == MapChar(s, '\n', ' ')
  {
    ReplaceChar(s, '\n', ' ');
    if !Contains(s, "\n") {
      forall k | 0 <= k < |s| ensures s[k] != '\n' {
        OccursChar(s, '\n', k);
      }
    }
  }

  /** A keyword without white space occurs in the normalized query exactly
      when it occurs in the query as given. */
  lemma NormalizedContains(q: string, w: string)
    requires |w| > 0 && NoSpace(w)
    ensures Contains(Normalized(q), w) <==> Contains(q, w)
  {
    ContainsStrip(q, w);
    FlattenIsMap(Strip(q));
    assert '\n' !in w && ' ' !in w by {
      assert IsSpace('\n') && IsSpace(' ');
    }
    ContainsMapChar(Strip(q), '\n', ' ', w);
  }

  /** `FROM` and `WHERE` are found in the normalized query exactly when they
      are in the query. */
  lemma ClauseKeywordsSurvive(q: string)
    ensures Contains(Normalized(q), "FROM") <==> Contains(q, "FROM")
    ensures Contains(Normalized(q), "WHERE") <==> Contains(q, "WHERE")
  {
    NormalizedContains(q, "FROM");
    NormalizedContains(q, "WHERE");
  }

  /** The three clause texts, by position:
      the SELECT list runs from the first `SELECT` to the next `FROM` or
      `SELECT`, the
      FROM clause from the first `FROM` to the next `WHERE` or `FROM`, the
      WHERE clause from the first `WHERE` to the next `WHERE`; each is
      stripped, and each is missing exactly when its keyword is. */
  lemma ClausesByPosition(sq: string)
    ensures SelectPart(sq).Some? <==> Contains(sq, "SELECT")
    ensures FromPart(sq).Some? <==> Contains(sq, "FROM")
    ensures WherePart(sq).Some? <==> Contains(sq, "WHERE")
    ensures Contains(sq, "SELECT") ==>
      SelectPart(sq).value == Strip(Before(Between(sq, "SELECT"), "FROM"))
    ensures Contains(sq, "FROM") ==>
      FromPart(sq).value == Strip(Before(Between(sq, "FROM"), "WHERE"))
    ensures Contains(sq, "WHERE") ==>
      WherePart(sq).value == Strip(Between(sq, "WHERE"))
  {
    SecondPiece(sq, "SELECT");
    SecondPiece(sq, "FROM");
    SecondPiece(sq, "WHERE");
    if Contains(sq, "SELECT") {
      SplitPieces(Between(sq, "SELECT"), "FROM");
    }
    if Contains(sq, "FROM") {
      SplitPieces(Between(sq, "FROM"), "WHERE");
    }
  }

  /** The query gets past the lookup and the SELECT check. */
  predicate Selects(q: string, catalog: Catalog) {
    HasName(q) && LookupName(q) in catalog && StartsWith(Strip(q), "SELECT")
  }

  /** The select list of the normalized query. */
  function SelectText(q: string): string {
    var sq := Normalized(q);
    if Contains(sq, "SELECT") then Strip(Before(Between(sq, "SELECT"), "FROM")) else ""
  }

  /** The FROM clause of the normalized query. */
  function FromText(q: string): string {
    var sq := Normalized(q);
    if Contains(sq, "FROM") then Strip(Before(Between(sq, "FROM"), "WHERE")) else ""
  }

  /** The WHERE clause of the normalized query. */
  function WhereText(q: string): string {
    var sq := Normalized(q);
    if Contains(sq, "WHERE") then Strip(Between(sq, "WHERE")) else ""
  }

  /** A stripped query that starts with `SELECT` and has `FROM` and `WHERE`
      has all three keywords once normalized. */
  lemma KeywordsSurvive(q: string)
    requires StartsWith(Strip(q), "SELECT") && Contains(q, "FROM") && Contains(q, "WHERE")
    ensures Contains(Normalized(q), "SELECT")
    ensures Contains(Normalized(q), "FROM") && Contains(Normalized(q), "WHERE")
  {
    assert Contains(Strip(q), "SELECT") by {
      ContainsAt(Strip(q), "SELECT", 0);
    }
    assert Contains(Normalized(q), "SELECT") by {
      FlattenIsMap(Strip(q));
      ContainsMapChar(Strip(q), '\n', ' ', "SELECT");
    }
    ClauseKeywordsSurvive(q);
  }

  /** A query that gets past the checks has all three clauses, so the
      IndexError guard on them never fires. */
  lemma ClausesPresent(q: string, catalog: Catalog)
    requires Selects(q, catalog) && Contains(q, "WHERE")
    ensures SelectPart(Normalized(q)) == Some(SelectText(q))
    ensures FromPart(Normalized(q)) == Some(FromText(q))
    ensures WherePart(Normalized(q)) == Some(WhereText(q))
  {
    KeywordsSurvive(q);
    ClausesByPosition(Normalized(q));
  }

  // ---------------------------------------------------------------------
  // What reaches DataFrame.query

  /** Without `WHERE` the result is exactly the catalog table: no condition
      and no column selection, whatever the SELECT list says. */
  lemma NoWhereIsWholeTable(q: string, catalog: Catalog, filter: Filter)
    requires Selects(q, catalog) && !Contains(q, "WHERE")
    ensures Execute(q, catalog, filter) == Rows(catalog[LookupName(q)])
  {
    TableNameByPosition(q);
    ClauseKeywordsSurvive(q);
  }

  /** Once the name is found and the query starts with `SELECT`, the plan
      depends on the normalized query alone. */
  lemma PlanFromClauses(q: string, catalog: Catalog, name: string)
    requires TableName(q) == Some(name) && name in catalog && StartsWith(Strip(q), "SELECT")
    ensures Prepare(q, catalog) == Clauses(Normalized(q), catalog[name], catalog)
  {
  }

  /** With `WHERE` and all three clauses present, the plan is made from the
      clause texts. */
  lemma ClausesByText(sq: string, table: Table, catalog: Catalog, sel: string, from: string, where: string)
    requires Contains(sq, "WHERE")
    requires SelectPart(sq) == Some(sel) && FromPart(sq) == Some(from) && WherePart(sq) == Some(where)
    ensures Clauses(sq, table, catalog) == Conditioned(sel, from, where, table, catalog)
  {
  }

  /** A query that passes the checks and has `WHERE` is planned from its
      three clauses by position. */
  lemma WherePlan(q: string, catalog: Catalog)
    requires Selects(q, catalog) && Contains(q, "WHERE")
    ensures Prepare(q, catalog) ==
      Conditioned(SelectText(q), FromText(q), WhereText(q), catalog[LookupName(q)], catalog)
  {
    var table := catalog[LookupName(q)];
    assert Prepare(q, catalog) == Clauses(Normalized(q), table, catalog) by {
      NameFromWord(q);
      PlanFromClauses(q, catalog, LookupName(q));
    }
    assert Contains(Normalized(q), "WHERE") by {
      ClauseKeywordsSurvive(q);
    }
    ClausesPresent(q, catalog);
    ClausesByText(Normalized(q), table, catalog, SelectText(q), FromText(q), WhereText(q));
  }

  /** Without a join, the looked-up table is filtered by the WHERE clause with
      every `=` doubled and every `'` turned into `"`; no single quote is
      left in the condition. */
  lemma PlainCondition(q: string, catalog: Catalog)
    requires Selects(q, catalog) && Contains(q, "WHERE") && !Contains(FromText(q), "JOIN")
    ensures Prepare(q, catalog) ==
      Query(catalog[LookupName(q)], RewriteCondition(WhereText(q)), ProjectionOf(SelectText(q)))
    ensures '\'' !in Prepare(q, catalog).condition
  {
    WherePlan(q, catalog);
    ReplaceQuoteLeavesNone(Replace(WhereText(q), "=", "=="));
  }

  /** With a join, the joined frame is filtered by the WHERE clause exactly
      as written; a failure of the join is a failure of the query. */
  lemma JoinCondition(q: string, catalog: Catalog)
    requires Selects(q, catalog) && Contains(q, "WHERE") && Contains(FromText(q), "JOIN")
    ensures JoinSource(FromText(q), catalog).Ok? ==>
      Prepare(q, catalog) ==
        Query(JoinSource(FromText(q), catalog).value, WhereText(q), ProjectionOf(SelectText(q)))
    ensures JoinSource(FromText(q), catalog).Err? ==>
      Prepare(q, catalog) == Stop(Raised(JoinSource(FromText(q), catalog).error))
  {
    WherePlan(q, catalog);
  }

  /** The rewrite loses nothing when the clause has no double quote: turning
      `"` back into `'` and `==` back into `=` gives the clause back. */
  lemma RewriteRoundTrip(w: string)
    requires '"' !in w
    ensures Replace(Replace(RewriteCondition(w), "\"", "'"), "==", "=") == w
  {
    var doubled := Replace(w, "=", "==");
    ReplaceChars(w, "=", "==");
    assert '"' !in doubled;
    ReplaceChar(doubled, '\'', '"');
    ReplaceChar(MapChar(doubled, '\'', '"'), '"', '\'');
    MapCharInverse(doubled, '\'', '"');
    DoubleEqualsRoundTrip(w);
  }

  /** An SQL equality with a quoted literal becomes a pandas equality with a
      double-quoted literal: `col = 'v'` is handed over as `col == "v"`. */
  lemma QuotedEquality(col: string, v: string)
    requires '=' !in col && '=' !in v && '\'' !in col && '\'' !in v
    ensures RewriteCondition(col + " = '" + v + "'") == col + " == \"" + v + "\""
  {
    var left, right := col + " ", " '" + v + "'";
    assert col + " = '" + v + "'" == left + ['='] + right;
    ReplaceOnce(left, '=', right, "==");
    var op, quote := " == '", "'";
    var doubled := col + op + v + quote;
    assert left + "==" + right == doubled;
    ReplaceChar(doubled, '\'', '"');
    MapCharAppend(col + op + v, quote, '\'', '"');
    MapCharAppend(col + op, v, '\'', '"');
    MapCharAppend(col, op, '\'', '"');
    MapCharAbsent(col, '\'', '"');
    MapCharAbsent(v, '\'', '"');
    assert MapChar(op, '\'', '"') == " == \"";
    assert MapChar(quote, '\'', '"') == "\"";
  }

  /** A comparison written with `>=` is handed over as `>==`: the rewrite
      doubles every `=`, also the one of a two-character operator. */
  lemma ComparisonRewrite(col: string, v: string)
    requires '=' !in col && '=' !in v && '\'' !in col && '\'' !in v
    ensures RewriteCondition(col + " >= " + v) == col + " >== " + v
  {
    var left, right := col + " >", " " + v;
    assert col + " >= " + v == left + ['='] + right;
    ReplaceOnce(left, '=', right, "==");
    var op := " >== ";
    var doubled := col + op + v;
    assert left + "==" + right == doubled;
    ReplaceChar(doubled, '\'', '"');
    MapCharAppend(col + op, v, '\'', '"');
    MapCharAppend(col, op, '\'', '"');
    MapCharAbsent(col, '\'', '"');
    MapCharAbsent(v, '\'', '"');
    MapCharAbsent(op, '\'', '"');
  }

  // ---------------------------------------------------------------------
  // The join clause

  /** The FROM clause has a `JOIN` and, after it, an `ON`. */
  predicate HasJoin(fromPart: string) {
    Contains(fromPart, "JOIN") && Contains(Between(fromPart, "JOIN"), "ON")
  }

  /** The main table: the stripped text before the first `JOIN`. */
  function MainTable(fromPart: string): string {
    Strip(Before(fromPart, "JOIN"))
  }

  /** The joined table: the stripped text between `JOIN` and the next `ON`. */
  function JoinedTable(fromPart: string): string
    requires Contains(fromPart, "JOIN")
  {
    Strip(Before(Between(fromPart, "JOIN"), "ON"))
  }

  /** The join condition: the stripped text between the first and the second
      `ON` after the `JOIN`. */
  function OnText(fromPart: string): string
    requires HasJoin(fromPart)
  {
    Strip(Between(Between(fromPart, "JOIN"), "ON"))
  }

  /** A FROM clause without `JOIN ... ON` raises IndexError. */
  lemma JoinNeedsOn(fromPart: string, catalog: Catalog)
    requires !HasJoin(fromPart)
    ensures JoinSource(fromPart, catalog) == Err(IndexError)
  {
    SecondPiece(fromPart, "JOIN");
    if Contains(fromPart, "JOIN") {
      SecondPiece(Between(fromPart, "JOIN"), "ON");
    }
  }

  /** With `JOIN ... ON` present, the join is the lookup of the two tables
      and the merge on the condition. */
  lemma JoinSourceTables(fromPart: string, catalog: Catalog)
    requires HasJoin(fromPart)
    ensures JoinSource(fromPart, catalog) ==
      JoinTables(MainTable(fromPart), JoinedTable(fromPart), OnText(fromPart), catalog)
  {
    var rest := Between(fromPart, "JOIN");
    SplitPieces(fromPart, "JOIN");
    SecondPiece(fromPart, "JOIN");
    SplitPieces(rest, "ON");
    SecondPiece(rest, "ON");
  }

  /** Both tables are looked up as written, not upper-cased: the main table
      first, then the joined one; a missing one is a KeyError naming it. */
  lemma JoinLookups(fromPart: string, catalog: Catalog)
    requires HasJoin(fromPart)
    ensures MainTable(fromPart) !in catalog ==>
      JoinSource(fromPart, catalog) == Err(KeyError([MainTable(fromPart)]))
    ensures MainTable(fromPart) in catalog && JoinedTable(fromPart) !in catalog ==>
      JoinSource(fromPart, catalog) == Err(KeyError([JoinedTable(fromPart)]))
  {
    JoinSourceTables(fromPart, catalog);
  }

  /** With both tables found, the ON text is cut at its first `=` into the
      left and the right key (the right one runs to the next `=`), and
      the tables are merged on them; without `=` it raises IndexError. */
  lemma JoinKeys(fromPart: string, catalog: Catalog)
    requires HasJoin(fromPart) && MainTable(fromPart) in catalog && JoinedTable(fromPart) in catalog
    ensures !Contains(OnText(fromPart), "=") ==> JoinSource(fromPart, catalog) == Err(IndexError)
    ensures Contains(OnText(fromPart), "=") ==>
      JoinSource(fromPart, catalog) ==
        Merge(catalog[MainTable(fromPart)], catalog[JoinedTable(fromPart)],
              Strip(Before(OnText(fromPart), "=")), Strip(Between(OnText(fromPart), "=")))
  {
    JoinSourceTables(fromPart, catalog);
    SplitPieces(OnText(fromPart), "=");
    SecondPiece(OnText(fromPart), "=");
  }

  /** A merge that succeeds has the layout's names as columns and the
      joined rows as rows. */
  lemma MergeRows(left: Table, right: Table, lk: string, rk: string)
    requires Merge(left, right, lk, rk).Ok?
    ensures var layout := MergeLayout(left.columns, right.columns, lk, rk);
      Merge(left, right, lk, rk).value == Table(Names(layout), JoinRows(layout, left.rows, right.rows, lk, rk))
  {
  }

  /** Every row of a merge pairs a left row with a right row whose keys are
      equal, and is the combination of the two. */
  lemma MergeSound(left: Table, right: Table, lk: string, rk: string)
    requires Merge(left, right, lk, rk).Ok?
    ensures var t := Merge(left, right, lk, rk).value;
      var layout := MergeLayout(left.columns, right.columns, lk, rk);
      forall k :: 0 <= k < |t.rows| ==>
        exists i, j :: 0 <= i < |left.rows| && 0 <= j < |right.rows|
          && Joins(layout, t.rows[k], left.rows[i], right.rows[j], lk, rk)
  {
    MergeRows(left, right, lk, rk);
    JoinRowsSound(MergeLayout(left.columns, right.columns, lk, rk), left.rows, right.rows, lk, rk);
  }

  /** The merge has exactly one row per pair of a left and a right row whose
      keys are equal. */
  lemma MergeCount(left: Table, right: Table, lk: string, rk: string)
    requires Merge(left, right, lk, rk).Ok?
    ensures |Merge(left, right, lk, rk).value.rows| == |MatchingPairs(left.rows, right.rows, lk, rk)|
  {
    MergeRows(left, right, lk, rk);
    assert left.rows[0..] == left.rows;
    JoinRowsCount(MergeLayout(left.columns, right.columns, lk, rk), left.rows, right.rows, lk, rk, 0);
  }

  /** Every pair of rows whose keys are equal is in the merge. */
  lemma MergeComplete(left: Table, right: Table, lk: string, rk: string, i: nat, j: nat)
    requires Merge(left, right, lk, rk).Ok?
    requires i < |left.rows| && j < |right.rows| && Cell(left.rows[i], lk) == Cell(right.rows[j], rk)
    ensures CombineRow(MergeLayout(left.columns, right.columns, lk, rk), left.rows[i], right.rows[j])
      in Merge(left, right, lk, rk).value.rows
  {
    MergeRows(left, right, lk, rk);
    JoinRowsComplete(MergeLayout(left.columns, right.columns, lk, rk), left.rows, right.rows, lk, rk, i, j);
  }

  /** In a combined row each column holds the value of the column it came
      from, in the left or in the right row. */
  lemma MergedCells(left: Table, right: Table, lk: string, rk: string, l: Row, r: Row, p: nat)
    requires Merge(left, right, lk, rk).Ok?
    requires p < |MergeLayout(left.columns, right.columns, lk, rk)|
    ensures var layout := MergeLayout(left.columns, right.columns, lk, rk);
      CombineRow(layout, l, r)[layout[p].0] == Pick(layout[p].1, l, r)
  {
    CombineRowAt(MergeLayout(left.columns, right.columns, lk, rk), l, r, p);
  }

  // ---------------------------------------------------------------------
  // The column selection

  /** A list of column names without white space comes back from the
      comma-split list unchanged: `",".join(columns) == select_part`. */
  lemma ColumnListRoundTrip(sel: string)
    requires NoSpace(sel)
    ensures Join(ColumnList(sel), ",") == sel
  {
    var pieces := Split(sel, ",");
    SplitPiecesIn(sel, ",");
    forall k | 0 <= k < |pieces| ensures Strip(pieces[k]) == pieces[k] {
      forall j | 0 <= j < |pieces[k]| ensures !IsSpace(pieces[k][j]) {
        assert pieces[k][j] in pieces[k];
        assert pieces[k][j] in sel;
        var i :| 0 <= i < |sel| && sel[i] == pieces[k][j];
      }
      StripToken(pieces[k]);
    }
    assert ColumnList(sel) == pieces;
    JoinSplit(sel, ",");
  }

  /** A select list made of comma-free pieces separated by commas selects the
      pieces with the white space around each one stripped, in order: the
      list `a, b` selects `a` and `b`. */
  lemma ColumnListOfPieces(ps: seq<string>)
    requires |ps| >= 1
    requires forall k :: 0 <= k < |ps| ==> ',' !in ps[k]
    ensures ColumnList(Join(ps, ",")) == seq(|ps|, k requires 0 <= k < |ps| => Strip(ps[k]))
  {
    assert ","[0] == ',';
    SplitJoin(ps, ",");
  }

  /** Listing trimmed, comma-free names separated by commas selects exactly
      those names, in that order. */
  lemma ColumnListOfNames(names: seq<string>)
    requires |names| >= 1
    requires forall k :: 0 <= k < |names| ==> ',' !in names[k] && Strip(names[k]) == names[k]
    ensures ColumnList(Join(names, ",")) == names
  {
    ColumnListOfPieces(names);
  }

  /** The select list is `*` (or empty) exactly when every column is kept. */
  lemma ProjectionCases(selectPart: string)
    ensures ProjectionOf(selectPart) == AllColumns <==> selectPart == "" || selectPart == "*"
    ensures ProjectionOf(selectPart).Columns? ==>
      ProjectionOf(selectPart).names == ColumnList(selectPart)
  {
  }

  /** A condition that returns the columns it is given. */
  ghost predicate KeepsColumns(filter: Filter) {
    forall t: Table, condition: string :: filter(t, condition).Some? ==>
      filter(t, condition).value.columns == t.columns
  }

  /** After the condition, a column list selects those columns of the filtered
      rows, one result row per filtered row; a column the frame lacks is a
      KeyError naming the missing columns. */
  lemma SelectedColumns(plan: Plan, filter: Filter)
    requires plan.Query? && plan.projection.Columns?
    requires filter(plan.source, plan.condition).Some?
    ensures var filtered := filter(plan.source, plan.condition).value;
      var names := plan.projection.names;
      (forall c :: c in names ==> c in filtered.columns) <==> Finish(plan, filter).Rows?
    ensures var filtered := filter(plan.source, plan.condition).value;
      var names := plan.projection.names;
      Finish(plan, filter).Rows? ==>
        Finish(plan, filter).table.columns == names && |Finish(plan, filter).table.rows| == |filtered.rows|
        && forall k, c :: 0 <= k < |filtered.rows| && c in names ==>
             Cell(Finish(plan, filter).table.rows[k], c) == Cell(filtered.rows[k], c)
    ensures var filtered := filter(plan.source, plan.condition).value;
      var names := plan.projection.names;
      Finish(plan, filter).Empty? ==>
        Finish(plan, filter) == Empty(Raised(KeyError(Missing(names, filtered.columns))))
  {
  }

  /** With a condition that keeps the columns, a query with a WHERE clause
      returns the source's columns for `*` and the listed ones otherwise. */
  lemma ResultColumns(q: string, catalog: Catalog, filter: Filter)
    requires KeepsColumns(filter)
    requires Prepare(q, catalog).Query? && Execute(q, catalog, filter).Rows?
    ensures var plan := Prepare(q, catalog);
      Execute(q, catalog, filter).table.columns ==
        if plan.projection.AllColumns? then plan.source.columns else plan.projection.names
  {
    FinishColumns(Prepare(q, catalog), filter);
  }

  /** The same for any plan that queries. */
  lemma FinishColumns(plan: Plan, filter: Filter)
    requires KeepsColumns(filter)
    requires plan.Query? && Finish(plan, filter).Rows?
    ensures Finish(plan, filter).table.columns ==
      if plan.projection.AllColumns? then plan.source.columns else plan.projection.names
  {
    assert filter(plan.source, plan.condition).Some?;
  }

  /** A select list naming something that is not a column of the source, such
      as `COUNT(*)`, never gives rows when the condition keeps the columns:
      either the condition fails or the selection raises KeyError. */
  lemma AbsentColumnIsEmpty(plan: Plan, filter: Filter, name: string)
    requires KeepsColumns(filter)
    requires plan.Query? && plan.projection.Columns?
    requires name in plan.projection.names && name !in plan.source.columns
    ensures Finish(plan, filter) == Empty(Raised(QueryError))
      || Finish(plan, filter) == Empty(Raised(KeyError(Missing(plan.projection.names, plan.source.columns))))
  {
    if filter(plan.source, plan.condition).Some? {
      assert filter(plan.source, plan.condition).value.columns == plan.source.columns;
    }
  }
}
