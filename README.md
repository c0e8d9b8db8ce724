# A verified model of `execute_sql_query_on_df`

`execute_sql_query_on_df(query, dfs)` evaluates a SQL-like string against a
catalog of pandas frames keyed by upper-case table name. It is not a parser:
it finds its clauses by cutting the string at the first occurrences of the
keywords `FROM`, `SELECT`, `WHERE`, `JOIN` and `ON` with Python's
`str.split`. The steps, in the order the program takes them:

1. It takes the table name from the first word of the text between the
   first and the second `FROM` (`query.split("FROM")[1]`), upper-cased, and
   looks it up.
2. It checks that the stripped query starts with `SELECT`.
3. It turns newlines into spaces.
4. Without `WHERE`, it returns the table as it is.
5. With `WHERE`, it cuts out the select list, the FROM clause and the
   WHERE clause.
6. With `JOIN` in the FROM clause, it merges two tables on the keys named
   after `ON`. Otherwise it rewrites the condition: every `=` becomes `==`
   and every `'` becomes `"`.
7. It hands the frame and the condition to `DataFrame.query`.
8. It selects the comma-separated, trimmed columns unless the select list
   is `*` (an empty list counts as `*`).

Every failure, whether an early return or an exception caught by the outer
`except`, gives back the empty frame.

The model is pure: functions and lemmas, no state, as in the source.

* `Wrappers` (`wrappers.dfy`): `Option` and `Result`.
* `PyStr` (`pystr.dfy`): the `str` methods the interpreter uses, as
  functions on `string`, each with the properties the interpreter relies on:
  * `find`/`in` (`IndexOf`, `Contains`) and `startswith`;
  * `split(sep)` (`Split`), `sep.join` (`Join`) and `replace`
    (`Replace`, defined as splitting on the pattern and joining with the
    replacement);
  * `strip()`, `split()` (`SplitWs`) and `upper()`;
  * Python indexing into a list (`Nth`), where `None` is the IndexError.
* `Frames` (`frames.dfy`): a frame as a column list plus rows (maps from
  column name to value). Also:
  * column selection `result[columns]` (`Project`);
  * `pd.merge(..., left_on, right_on, how='inner')` (`Merge`) as a
    nested-loop equality join. A name both sides have gets `_x` on the
    left and `_y` on the right. The right key is kept once when it has the
    same name as the left key. A missing key is a KeyError. Any two equal
    names in the result are a MergeError; pandas is more lenient here (see
    the `Frames.Merge:` line under "Left out").
* `Interpreter` (`interpreter.dfy`): the interpreter itself.
  * `Prepare` does the string handling and the lookups. It ends in a
    `Plan`: a failure, the whole table, or the exact frame and condition
    string that reach `DataFrame.query` together with the columns to
    select. It is staged like the source's nested `if`s: `Prepare`, then
    `Clauses`, then `Conditioned`.
  * `Finish` runs a plan with `DataFrame.query` given as a parameter
    (`Filter`).
  * `Execute` is the two in sequence.
  * An `Empty` outcome records why it is empty: the table was not found,
    the format was invalid, or an exception of a given kind was raised.
* `QueryProperties` (`properties.dfy`): the interpreter's behaviour stated
  by position in the query string. It covers:
  * which name is looked up;
  * when each early return happens;
  * the three clause texts as the text between keyword occurrences;
  * which condition string and which frame reach `DataFrame.query`;
  * how the join clause is decomposed;
  * when the merge succeeds, and that it is an inner equality join: every
    merged row combines a left and a right row with equal keys, every such
    pair contributes its row, and there is one row per matching pair;
  * what the column selection produces.

The program behaves as follows in cases a reader might not expect, and the
model does the same:

* Without `WHERE`, the select list is ignored: `SELECT a FROM T` returns all
  of `T` (`NoWhereIsWholeTable`).
* The table looked up first is the first word of the text between the first
  and the second `FROM`, upper-cased, so `SELECT a FROM TFROM` looks up `T`. With a join, both tables are looked up again exactly as
  written, without upper-casing (`JoinLookups`).
* The WHERE clause is the text between the first and the second `WHERE`.
  The FROM clause stops at a second `FROM` as well as at `WHERE`
  (`ClausesByPosition`).
* Keywords are found as substrings, so `ON` inside a table name such as
  `LOCATIONS` cuts the join clause there (`JoinedTable` is the text before
  the first `ON` after `JOIN`).
* The rewrite doubles every `=`, so `>=` reaches `DataFrame.query` as
  `>==` (`ComparisonRewrite`).
* A column name both merged frames have gets `_x` on the left and `_y` on
  the right (`MergeLayout`). pandas raises a MergeError only when the
  suffixes create a duplicate within one side's renamed names; the model
  raises it whenever two result names are equal.

## Model

| member | source | states |
|---|---|---|
| PyStr.IndexOf | oracleapex_new.py:88 | the result is the first position where the pattern occurs; `None` means it occurs nowhere |
| PyStr.Before | oracleapex_new.py:89-90 | the first piece of a split is a prefix of the string; when the separator occurs, the prefix ends exactly at its first occurrence, and the separator occurs nowhere earlier |
| PyStr.After | oracleapex_new.py:89-91 | the text after the first separator exists exactly when the separator occurs |
| PyStr.Split | oracleapex_new.py:89-91 | `split(sep)` always returns at least one piece |
| PyStr.JoinSplit | oracleapex_new.py:89-91 | joining the pieces of `split(sep)` with `sep` gives the string back |
| PyStr.SplitPiecesFree | oracleapex_new.py:89-91 | no piece of `split(sep)` contains `sep` |
| PyStr.SplitPieces | oracleapex_new.py:89-91 | piece 0 is the text before the first `sep`; there is a piece 1 exactly when `sep` occurs, and it is the text up to the second `sep` |
| PyStr.SplitSingle | oracleapex_new.py:99-102 | `split(sep)` has one piece, the whole string, exactly when `sep` does not occur |
| PyStr.SplitJoin | oracleapex_new.py:118 | splitting `sep.join(ps)` gives `ps` back when no piece holds the separator's first character |
| PyStr.SplitPiecesIn | oracleapex_new.py:118 | every character of a piece is a character of the string |
| PyStr.ReplaceChar | oracleapex_new.py:114 | replacing one character by another changes it at every position and nothing else |
| PyStr.ReplaceChars | oracleapex_new.py:114 | `replace` adds no characters other than those of the replacement |
| PyStr.ReplaceOnce | oracleapex_new.py:114 | a character that occurs once is replaced in place |
| PyStr.ReplaceQuoteLeavesNone | oracleapex_new.py:114 | after `replace("'", '"')` no single quote is left |
| PyStr.DoubleEqualsRoundTrip | oracleapex_new.py:114 | `replace('=', '==')` is undone by `replace('==', '=')` |
| PyStr.TrimStart | oracleapex_new.py:80 | the result is a suffix; only white space was removed, and it starts with a character that is not white space |
| PyStr.TrimEnd | oracleapex_new.py:80 | the result is a prefix; only white space was removed, and it ends with a character that is not white space |
| PyStr.StripShape | oracleapex_new.py:80 | the result of `strip()` is a slice of the string, with only white space cut off both ends and neither end white space |
| PyStr.ContainsStrip | oracleapex_new.py:80-88 | a keyword free of white space is in `s.strip()` exactly when it is in `s` |
| PyStr.ContainsMapChar | oracleapex_new.py:84-88 | mapping a character to another, neither in a keyword, keeps whether the keyword occurs |
| PyStr.SplitWs | oracleapex_new.py:71 | every word of `split()` is non-empty and free of white space |
| PyStr.SplitWsEmpty | oracleapex_new.py:71 | `split()` returns no word exactly when the string is all white space |
| PyStr.SplitWsFirst | oracleapex_new.py:71 | the first word of `split()` follows only white space and is followed by white space or the end |
| PyStr.StripToken | oracleapex_new.py:71 | `strip()` leaves a word free of white space unchanged |
| PyStr.UpperShape | oracleapex_new.py:71 | `upper()` turns each lower-case ASCII letter into the same letter in upper case, as `cust` becomes `CUST`, and changes no other character |
| Frames.Project | oracleapex_new.py:119 | `result[columns]` succeeds exactly when every listed column exists, and then has the listed columns in order, as many rows as before, and the same cells; otherwise it is a KeyError naming the missing columns |
| Frames.ProjectAll | oracleapex_new.py:119 | selecting all columns of a frame gives the frame back |
| Frames.Merge | oracleapex_new.py:107-109 | the merge is a KeyError exactly when a key column is missing, and succeeds exactly when both keys exist and the suffixed names are distinct; a successful merge has the layout's columns and rows that all have those columns |
| Frames.CombineRowAt | oracleapex_new.py:107-109 | each column of a merged row holds the value of the column it came from |
| Frames.JoinRowsSound | oracleapex_new.py:107-109 | every joined row combines a left and a right row whose keys are equal |
| Frames.JoinRowsComplete | oracleapex_new.py:107-109 | every left and right row whose keys are equal contribute their combined row |
| Frames.JoinRowsCount | oracleapex_new.py:107-109 | the join has exactly as many rows as there are matching index pairs |
| Interpreter.ColumnList | oracleapex_new.py:118 | there is one column name per comma-separated piece |
| Interpreter.TableName | oracleapex_new.py:71 | definition of the table-name extraction; its behaviour is stated by QueryProperties.TableNameByPosition |
| Interpreter.ProjectionOf | oracleapex_new.py:93-118 | definition of the select-list reading; its behaviour is stated by QueryProperties.ProjectionCases |
| Interpreter.RewriteCondition | oracleapex_new.py:114 | definition of the condition rewrite; its behaviour is stated by QueryProperties.PlainCondition, RewriteRoundTrip, QuotedEquality and ComparisonRewrite |
| Interpreter.JoinSource | oracleapex_new.py:98-109 | definition of the join clause; its behaviour is stated by QueryProperties.JoinNeedsOn, JoinSourceTables, JoinLookups and JoinKeys |
| Interpreter.JoinTables | oracleapex_new.py:105-106 | definition of the two table lookups of a join; stated by QueryProperties.JoinLookups |
| Interpreter.JoinOn | oracleapex_new.py:107-109 | definition of the key split and the merge; stated by QueryProperties.JoinKeys |
| Interpreter.Prepare | oracleapex_new.py:71-82 | definition of the lookup and the SELECT check; stated by QueryProperties.NoNameIsEmpty, UnknownTableIsEmpty, NotSelectIsEmpty and PlanFromClauses |
| Interpreter.Clauses | oracleapex_new.py:88-91 | definition of the WHERE test and the clause extraction; stated by QueryProperties.NoWhereIsWholeTable, ClausesPresent and WherePlan |
| Interpreter.Conditioned | oracleapex_new.py:93-115 | definition of the choice between the join and the plain condition; stated by QueryProperties.PlainCondition and JoinCondition |
| Interpreter.Finish | oracleapex_new.py:111-119 | definition of the filter and the column selection; stated by QueryProperties.SelectedColumns, FinishColumns and AbsentColumnIsEmpty |
| Interpreter.Execute | oracleapex_new.py:68-130 | definition of `execute_sql_query_on_df`; its behaviour is stated by the QueryProperties rows |
| QueryProperties.TableNameByPosition | oracleapex_new.py:71 | the looked-up name exists exactly when a word stands between the first and the second `FROM`; it is that first word, upper-cased |
| QueryProperties.NameIsUpperCase | oracleapex_new.py:71 | the looked-up name holds no lower-case ASCII letter |
| QueryProperties.NoNameIsEmpty | oracleapex_new.py:71 | without `FROM`, or with only white space after it, the result is empty (an IndexError) |
| QueryProperties.UnknownTableIsEmpty | oracleapex_new.py:71-74 | a name not in the catalog gives an empty result naming the table, whatever else the query says |
| QueryProperties.NotSelectIsEmpty | oracleapex_new.py:123-125 | a found table still gives an empty result when the stripped query does not start with `SELECT` |
| QueryProperties.FlattenIsMap | oracleapex_new.py:84-85 | the newline step maps every newline to a space and changes nothing else |
| QueryProperties.NormalizedContains | oracleapex_new.py:80-88 | a keyword free of white space occurs in the stripped, flattened query exactly when it occurs in the query |
| QueryProperties.ClauseKeywordsSurvive | oracleapex_new.py:80-88 | `FROM` and `WHERE` are in the stripped query with newlines turned into spaces exactly when they are in the query as given |
| QueryProperties.ClausesByPosition | oracleapex_new.py:89-91 | each clause is there exactly when its keyword is, and is the stripped text between that keyword and the next keyword |
| QueryProperties.ClausesPresent | oracleapex_new.py:82-91 | once the checks are passed and `WHERE` occurs, all three clauses exist, so their IndexError cannot happen |
| QueryProperties.NoWhereIsWholeTable | oracleapex_new.py:121-122 | without `WHERE` the result is exactly the catalog table, unchanged |
| QueryProperties.WherePlan | oracleapex_new.py:88-115 | with `WHERE`, the plan is made from the three clause texts by position |
| QueryProperties.PlainCondition | oracleapex_new.py:113-115 | without a join, the looked-up table and the rewritten WHERE clause reach `DataFrame.query`, and the condition holds no single quote |
| QueryProperties.JoinCondition | oracleapex_new.py:98-111 | with a join, the merged frame and the WHERE clause exactly as written reach `DataFrame.query`; a failed join is an empty result |
| QueryProperties.RewriteRoundTrip | oracleapex_new.py:114 | when the clause has no double quote, turning `"` back into `'` and `==` back into `=` recovers the clause |
| QueryProperties.QuotedEquality | oracleapex_new.py:114 | `col = 'v'` reaches `DataFrame.query` as `col == "v"` |
| QueryProperties.ComparisonRewrite | oracleapex_new.py:114 | `col >= v` reaches `DataFrame.query` as `col >== v` |
| QueryProperties.JoinNeedsOn | oracleapex_new.py:99-102 | a FROM clause without `JOIN ... ON` is an IndexError |
| QueryProperties.JoinSourceTables | oracleapex_new.py:99-106 | with `JOIN ... ON` present, the join is the lookup of the text before `JOIN`, the text before `ON` and the stripped condition after it |
| QueryProperties.JoinLookups | oracleapex_new.py:100-106 | the main table, then the joined table, is looked up as written; a missing one is a KeyError naming it |
| QueryProperties.JoinKeys | oracleapex_new.py:102-109 | the ON text is cut at its first `=` into the two key names; without `=` it is an IndexError; otherwise the tables are merged on those keys |
| QueryProperties.MergeSound | oracleapex_new.py:107-109 | every merged row combines a left and a right row whose keys are equal |
| QueryProperties.MergeComplete | oracleapex_new.py:107-109 | every pair of left and right rows with equal keys is in the merge |
| QueryProperties.MergeCount | oracleapex_new.py:107-109 | the merge has exactly one row per matching pair of rows |
| QueryProperties.MergedCells | oracleapex_new.py:107-109 | each merged column holds the value of its origin in the left or the right row |
| QueryProperties.ColumnListRoundTrip | oracleapex_new.py:118 | for a select list without white space, joining the selected names with commas gives the list back |
| QueryProperties.ColumnListOfPieces | oracleapex_new.py:118 | a select list of comma-free pieces separated by commas selects each piece with its surrounding white space stripped, in order, so `a, b` selects `a` and `b` |
| QueryProperties.ColumnListOfNames | oracleapex_new.py:118 | trimmed, comma-free names joined by commas select exactly those names, in order |
| QueryProperties.ProjectionCases | oracleapex_new.py:117-118 | every column is kept exactly when the select list is empty or `*`; otherwise the comma-split, trimmed names are selected |
| QueryProperties.SelectedColumns | oracleapex_new.py:117-119 | after the condition, the selection succeeds exactly when every listed column exists; it then has the listed columns and one row per filtered row with the same cells, and otherwise is a KeyError |
| QueryProperties.ResultColumns | oracleapex_new.py:111-119 | with a condition that keeps columns, the result has the source's columns for `*` and the listed ones otherwise |
| QueryProperties.FinishColumns | oracleapex_new.py:111-119 | for any plan that queries, a condition that keeps columns gives the source's columns for `*` and the listed ones otherwise |
| QueryProperties.AbsentColumnIsEmpty | oracleapex_new.py:117-119 | a select list naming something that is not a column, such as `COUNT(*)`, gives an empty result |

## Left out

- The Streamlit calls (`st.error`, `st.image`, `st.file_uploader`, `st.write`) are display side effects. The model returns only the frame, and an empty outcome records the kind of failure, not the message text.
- `get_response`, the Gemini call, is a network call. `generate_prompt` is fixed prompt text. Neither belongs to the interpreter.
- Loading the CSV files and building the catalog is file I/O. The catalog is a parameter.
- `DataFrame.query` evaluates a pandas expression language. It is the parameter `Filter`: a function from a frame and a condition string to a frame, or `None` for an exception. The properties say exactly which frame and which string it receives. What the condition selects, such as the rows where `col == "v"`, is not modelled.
- Exception messages are not modelled, only the exception's kind. `Frames.Merge` names both missing keys in its KeyError, where pandas reports the first.
- `PyStr.Upper`: maps only the ASCII letters. Python's Unicode case mapping, where for example `ß` becomes `SS` and the length changes, is not modelled.
- `Frames.Merge`: returns a MergeError whenever two result names are equal, because a `Row` is a map and cannot hold two columns of one name. pandas rejects only a duplicate that the suffixes create within one side's renamed names, so left columns `[k, a, a_y]` merged with right columns `[k, a]` on `k` give a frame with columns `k, a_x, a_y, a_y` in pandas and an empty result here. pandas' dtype checks and its row order are not modelled. The lemmas about the merge fix which pairs of rows it combines and how many rows it has; when two matching pairs combine into equal rows, they do not say how often each distinct row appears, although the definition gives one row per pair. The model gives the left rows in order and each one's matches in right-row order. Values are compared for plain equality, with no floating-point or NaN semantics.
- The pandas row index is not modelled. `DataFrame.query` keeps the original row labels and `pd.merge` numbers its rows afresh, but a `Table` is a column list and a sequence of rows with no labels.
- `Frames.Value` is an abstract sum of kinds of values. Column types and dtype coercion are not modelled.
- There are no concrete query strings, such as `SELECT * FROM FOO`. Evaluating `split` on literal strings is beyond what the verifier does cheaply. The lemmas hold for all queries: `UnknownTableIsEmpty` covers the missing `FOO`, and `AbsentColumnIsEmpty` covers `SELECT COUNT(*) ... WHERE ...`.
