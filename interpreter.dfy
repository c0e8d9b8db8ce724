/**
 * `execute_sql_query_on_df(query, dfs)`: a SQL-like query string evaluated
 * against a catalog of frames by cutting the string at the keywords
 * `SELECT`, `FROM`, `WHERE`, `JOIN` and `ON`.
 *
 * The evaluation is split in two. `Prepare` does everything that is plain
 * string handling and table lookup, and ends in a `Plan`: a failure, the
 * whole table, or a frame together with the exact condition string to hand
 * to `DataFrame.query` and the columns to select afterwards. `Finish` runs
 * that plan with `DataFrame.query` given as a parameter. `Execute` is the two
 * in sequence.
 */
module Interpreter {
  import opened Wrappers
  import opened PyStr
  import opened Frames

  /** The frames available to a query, by upper-case table name. */
  type Catalog = map<string, Table>

  /** Why the interpreter returned an empty frame. */
  datatype Failure =
    | TableNotFound(name: string)   // the name after FROM is not in the catalog
    | InvalidFormat(query: string)  // the stripped query does not start with SELECT
    | Raised(e: Exception)          // an exception caught by the outer handler

  /** What the interpreter returns: a frame, or the empty frame `pd.DataFrame()`. */
  datatype Outcome = Rows(table: Table) | Empty(reason: Failure)

  /** `DataFrame.query(condition)`, which the model does not interpret:
      `None` stands for an exception raised while evaluating the condition. */
  type Filter = (Table, string) -> Option<Table>

  /** Which columns to keep once the condition has been applied. */
  datatype Projection = AllColumns | Columns(names: seq<string>)

  /** The outcome of the string handling and the lookups. */
  datatype Plan =
    | Stop(reason: Failure)
    | Whole(table: Table)
    | Query(source: Table, condition: string, projection: Projection)

  // ---------------------------------------------------------------------
  // Pieces of the query string

  /** `query.split("FROM")[1].split()[0].strip().upper()`; `None` is the IndexError
      raised when there is no `FROM` or nothing but white space after it. */
  function TableName(query: string): Option<string> {
    match Nth(Split(query, "FROM"), 1)
    case None => None
    case Some(afterFrom) =>
      match Nth(SplitWs(afterFrom), 0)
      case None => None
      case Some(token) => Some(Upper(Strip(token)))
  }

  /** Newlines become spaces (the replacement is done only when there is one). */
  function Flatten(s: string): string {
    if Contains(s, "\n") then Replace(s, "\n", " ") else s
  }

  /** `sql_query.split('SELECT')[1].split('FROM')[0].strip()`. */
  function SelectPart(sq: string): Option<string> {
    match Nth(Split(sq, "SELECT"), 1)
    case None => None
    case Some(p) => Some(Strip(Split(p, "FROM")[0]))
  }

  /** `sql_query.split('FROM')[1].split('WHERE')[0].strip()`. */
  function FromPart(sq: string): Option<string> {
    match Nth(Split(sq, "FROM"), 1)
    case None => None
    case Some(p) => Some(Strip(Split(p, "WHERE")[0]))
  }

  /** `sql_query.split('WHERE')[1].strip()`. */
  function WherePart(sq: string): Option<string> {
    match Nth(Split(sq, "WHERE"), 1)
    case None => None
    case Some(p) => Some(Strip(p))
  }

  /** `[col.strip() for col in select_part.split(',')]`. */
  function ColumnList(sel: string): (cols: seq<string>)
    ensures |cols| == |Split(sel, ",")|
  {
    var pieces := Split(sel, ",");
    seq(|pieces|, k requires 0 <= k < |pieces| => Strip(pieces[k]))
  }

  /** The select list after an empty one has been read as `*`: everything for
      `*`, otherwise the listed columns. */
  function ProjectionOf(selectPart: string): Projection {
    var sel := if selectPart == "" then "*" else selectPart;
    if sel == "*" then AllColumns else Columns(ColumnList(sel))
  }

  /** The condition as handed to `DataFrame.query` when there is no join:
      `where_part.replace('=', '==').replace('\'', '"')`. */
  function RewriteCondition(w: string): string {
    Replace(Replace(w, "=", "=="), "'", "\"")
  }

  /** The `FROM ... JOIN ... ON a = b` clause: both tables looked up as written
      (not upper-cased), then merged on the two key columns. */
  function JoinSource(fromPart: string, catalog: Catalog): Result<Table, Exception> {
    var tables := Split(fromPart, "JOIN");
    match Nth(tables, 1)
    case None => Err(IndexError)
    case Some(rest) =>
      var ons := Split(rest, "ON");
      match Nth(ons, 1)
      case None => Err(IndexError)
      case Some(onText) => JoinTables(Strip(tables[0]), Strip(ons[0]), Strip(onText), catalog)
  }

  /** The two lookups, the main table first. */
  function JoinTables(mainTable: string, joinTable: string, condition: string, catalog: Catalog): Result<Table, Exception> {
    if mainTable !in catalog then Err(KeyError([mainTable]))
    else if joinTable !in catalog then Err(KeyError([joinTable]))
    else JoinOn(catalog[mainTable], catalog[joinTable], condition)
  }

  /** `pd.merge(df_main, df_join, left_on=join_condition.split('=')[0].strip(),
      right_on=join_condition.split('=')[1].strip(), how='inner')`. */
  function JoinOn(left: Table, right: Table, condition: string): Result<Table, Exception> {
    var keys := Split(condition, "=");
    match Nth(keys, 1)
    case None => Err(IndexError)
    case Some(rightText) => Merge(left, right, Strip(keys[0]), Strip(rightText))
  }

  // ---------------------------------------------------------------------
  // The interpreter

  /** Everything up to the call of `DataFrame.query`, in the order the
      program does it: table lookup, then the SELECT check. */
  function Prepare(query: string, catalog: Catalog): Plan {
    match TableName(query)
    case None => Stop(Raised(IndexError))
    case Some(name) =>
      if name !in catalog then Stop(TableNotFound(name))
      else
        var stripped := Strip(query);
        if !StartsWith(stripped, "SELECT") then Stop(InvalidFormat(stripped))
        else Clauses(Flatten(stripped), catalog[name], catalog)
  }

  /** A query that passed the SELECT check, with newlines already turned into
      spaces: the whole table without `WHERE`, otherwise the three clauses. */
  function Clauses(sq: string, table: Table, catalog: Catalog): Plan {
    if !Contains(sq, "WHERE") then Whole(table)
    else
      var sel, from, where := SelectPart(sq), FromPart(sq), WherePart(sq);
      if sel.None? || from.None? || where.None? then Stop(Raised(IndexError))
      else Conditioned(sel.value, from.value, where.value, table, catalog)
  }

  /** The frame and the condition for `DataFrame.query`: with a join, the
      joined frame and the WHERE clause as written; without, the looked-up
      table and the rewritten clause. */
  function Conditioned(sel: string, from: string, where: string, table: Table, catalog: Catalog): Plan {
    var projection := ProjectionOf(sel);
    if Contains(from, "JOIN") then
      match JoinSource(from, catalog)
      case Err(e) => Stop(Raised(e))
      case Ok(joined) => Query(joined, where, projection)
    else
      Query(table, RewriteCondition(where), projection)
  }

  /** The rest: apply the condition, then the column selection. */
  function Finish(plan: Plan, filter: Filter): Outcome {
    match plan
    case Stop(f) => Empty(f)
    case Whole(t) => Rows(t)
    case Query(source, condition, projection) =>
      match filter(source, condition)
      case None => Empty(Raised(QueryError))
      case Some(filtered) =>
        match projection
        case AllColumns => Rows(filtered)
        case Columns(names) =>
          match Project(filtered, names)
          case Err(e) => Empty(Raised(e))
          case Ok(t) => Rows(t)
  }

  /** `execute_sql_query_on_df(query, dfs)` with `DataFrame.query` as `filter`. */
  function Execute(query: string, catalog: Catalog, filter: Filter): Outcome {
    Finish(Prepare(query, catalog), filter)
  }
}
