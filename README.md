# A verified model of a small SQL SELECT evaluator

The modelled program is `sqlparser.py` from ninadpage/python-sql-parser-evaluator,
written in Python 2. It parses statements of the form

    SELECT <* | col, col, ...> FROM <table> [WHERE <conditions joined by AND / OR>]

and runs them against an in-memory store. The store is a dictionary from table
names to lists of rows, and each row is a dictionary from column names to values.

This project models the part that runs after parsing. The parse result is an input
value, a `Select.SelectStatement`, and the model covers four functions:

- `evaluate_where_condition`: one comparison of a row's column with a literal.
- `evaluate_where_expression`: the AND/OR lists that the grammar's `infixNotation` builds.
- `get_projection`: picking the requested columns of a row into an `OrderedDict`.
- `evaluate_select_statement`: resolve the table, filter its rows in order, and project each kept row.

Modules, one per file:

- `Results`: `Option` and `Result`. The error constructors stand for the two exceptions the code lets escape:
  - a `KeyError` on a row becomes `MissingColumn`;
  - a `KeyError` on the store becomes `UnknownTable`.
- `Rows`:
  - A row is a sequence of `(column, value)` fields. Sequence order is the dictionary's iteration order. The sequence type also admits repeated keys, which no dictionary has: `ValidRow` says a row has unique keys, and `Select.ValidStore` says every row of a store does. The evaluation functions accept any sequence. `Select.QueryValidRows` shows that a query over a store of dictionaries answers with dictionaries.
  - `Lookup` is `row[k]`.
  - `Assign` is `OrderedDict.__setitem__`: a present key keeps its first position and takes the new value; a new key is appended.
  - `Dedup` gives the key order that a series of assignments leaves.
- `Where`:
  - The condition and tree datatypes.
  - The three-way comparison of scalars.
  - `EvalCondition`, `EvalTree` / `EvalChain`, and their lemmas.
- `Lists`: walking a sequence with a step that may fail, in the two shapes the executor's loops have: a filter and a map. Both stop at the first failure.
- `Select`:
  - `Projection` and the method `GetProjection`, whose loop is proved equal to it.
  - `Query` and the method `EvaluateSelectStatement`, whose two loops are proved equal to it.
- `Demo`: the query of `example.py`, over its four-record table.

Python 2 semantics the model follows:

- `==` and `!=` between an integer and a string are False and True; they never raise.
- `in` on a list tests equality with each element. The IN list reaches the evaluator as the parser's group of literals rather than as a list, though, and that changes the answer (see "## Findings").
- Ordering between an integer and a string does not raise: every number orders before every string. `Where.Cmp` is therefore a total order on integers and strings.
- `and`/`or` return their short-circuit operand. Every operand here is a boolean, so the result is the boolean connective, and the tail is not evaluated once the head decides.

Two behaviours could be expected to differ from what the code does. The model follows the code in both:

- **Comparing a number with a string.** A type-mismatch error might be expected here. The code has no such check, and Python 2 orders the two kinds, so the model returns the value Python 2 computes.
- **A column requested twice.** One might expect the last mention to decide where the column lands. `OrderedDict` keeps a key at its first position when it is assigned again. Both writes store the same `row[column]`, so only the order of keys is at stake, and the model keeps the first position (`Rows.Dedup`).

Three predicates state what the grammar guarantees about its output. Evaluation requires them, because the grammar never builds anything else:

- `Where.WellTyped`: IN and NOT IN take a list; every other operator takes one literal (sqlparser.py:54-57).
- `Where.WellFormed`: a list alternates sub-trees and the keywords `AND`/`OR`, and has odd length (sqlparser.py:67-72).
- `Select.ValidColumns`: the column list is `*` or at least one name (sqlparser.py:81).

## Model

| member | source | states |
|---|---|---|
| Rows.Lookup | sqlparser.py:90 | `row[k]` is absent (the KeyError case) exactly when `k` is not among the row's keys; otherwise it is the value of the field that carries `k` |
| Rows.LookupField | sqlparser.py:90 | in a row with unique keys, every field is found by its own name with its own value |
| Rows.Assign | sqlparser.py:135 | `d[k] = v` appends `(k, v)` when `k` is new; otherwise it replaces only the field at `k`'s first position and keeps the length |
| Rows.AssignKeys | sqlparser.py:135 | after `d[k] = v` the keys are the old keys, with `k` appended when it was new; unique keys stay unique |
| Rows.AssignLookup | sqlparser.py:135 | after `d[k] = v`, looking up `k` gives `v` |
| Rows.AssignLookupOther | sqlparser.py:135 | after `d[k] = v`, every other key looks up as before |
| Rows.Dedup | sqlparser.py:133-136 | the key order of repeated assignment is duplicate-free and holds exactly the requested names |
| Rows.DedupFirstOccurrence | sqlparser.py:133-136 | that key order follows the first occurrence of each name in the request |
| Where.StrCmp | sqlparser.py:93-100 | string comparison is -1, 0 or 1, and is 0 exactly when the strings are the same |
| Where.Cmp | sqlparser.py:93-100 | the comparison behind the ordering operators is -1, 0 or 1 and is 0 exactly on equal values; on two integers it is negative exactly when the first is smaller; every integer is below every string |
| Where.StrCmpLex | sqlparser.py:93-100 | string comparison puts `a` below `b` exactly in lexicographic order by character code: `a` is a proper prefix of `b`, or the two agree up to a position where `a`'s character is smaller |
| Where.CmpTotalOrder | sqlparser.py:93-100 | the three-way comparison behind `>`, `>=`, `<` and `<=` is zero exactly on equal values, flips sign when its arguments swap, and its strict order is transitive, across integers and strings alike |
| Where.StrCmpAntisymmetric | sqlparser.py:93-100 | swapping the strings negates their comparison |
| Where.StrCmpTransitive | sqlparser.py:93-100 | string comparison is transitive |
| Where.EvalCondition | sqlparser.py:88-104 | a condition fails exactly when the row lacks its column, and then with `MissingColumn` of that column; a missing column is never read as false |
| Where.NegatedOperators | sqlparser.py:89-104 | `!=` is the negation of `=`, and NOT IN of IN, on every row; a missing column fails both alike |
| Where.ComplementOrderings | sqlparser.py:93-100 | on one row, `>=` gives the opposite answer to `<`, and `<=` to `>`, for every literal |
| Where.NegatedOrderings | sqlparser.py:93-100 | `>=` is the negation of `<`, and `<=` of `>`, on every row and literal, integers and strings mixed |
| Where.EqMeaning | sqlparser.py:89-100 | `=` holds exactly when the ordering comparison of the row's value with the literal is zero, and exactly when both `>=` and `<=` hold |
| Where.ListedMembership | sqlparser.py:101-104 | the scan of the literal list finds a value exactly when the value is an element of the list |
| Where.MembershipIgnoresOrder | sqlparser.py:101-104 | IN and NOT IN give the same answer on a row for any two lists with the same elements, whatever their order and repetitions |
| Where.MembershipMeaning | sqlparser.py:101-104 | on a present column, IN is true and NOT IN false when some element of the list equals the row's value, and the other way round when none does |
| Where.GtMeaning | sqlparser.py:93-94 | `>` between two numbers is numeric comparison |
| Where.LtMeaning | sqlparser.py:97-98 | `<` holds exactly when the literal orders after the row's value; a number is below every string literal |
| Where.StringOrderingMeaning | sqlparser.py:93-100 | between two strings, `<` and `>` are lexicographic order and `>=` and `<=` its complements |
| Where.ConditionMeaning | sqlparser.py:88-104 | the `=`, IN, `>` and `<` facts above for one condition on a present column, with `>` and `<` on two strings as lexicographic order |
| Where.EvalTree | sqlparser.py:107-116 | a failing tree fails with `MissingColumn` of a column that the tree refers to and that the row lacks |
| Where.EvalChain | sqlparser.py:110-116 | the same for a list: a failure names a referenced column that the row lacks |
| Where.AndShortCircuit | sqlparser.py:111-112 | a false head under AND makes the list false, whatever the tail would do |
| Where.OrShortCircuit | sqlparser.py:113-114 | a true head under OR makes the list true, whatever the tail would do |
| Where.ShortCircuitHidesMissingColumn | sqlparser.py:110-114 | for every tail that fails on its own (always with `MissingColumn`): behind a false AND head or a true OR head the list succeeds with the head's value; behind a true AND head or a false OR head the list fails with the tail's error |
| Where.SingletonChain | sqlparser.py:115-116 | a one-element list evaluates as its element |
| Where.ChainIsLeftFold | sqlparser.py:107-116 | for a list of one keyword, the code's head/tail recursion gives the same result, failures included, as the left-associative fold of the grammar |
| Where.ChainAllNeutral | sqlparser.py:110-114 | when every operand of an AND list is true (of an OR list, false), so is the list |
| Where.ChainFirstDecides | sqlparser.py:110-114 | operands are tried left to right; the first that is not the neutral value decides the list, failure included, and later operands are not evaluated |
| Where.AndChain | sqlparser.py:111-112 | an AND list whose operands all evaluate is the conjunction of its operands |
| Where.OrChain | sqlparser.py:113-114 | an OR list whose operands all evaluate is the disjunction of its operands |
| Lists.Filter | sqlparser.py:143-151 | the kept rows are never more than the table's rows |
| Lists.FilterExact | sqlparser.py:143-151 | the filter succeeds exactly when the step succeeds on every row; it then keeps, in order, exactly the accepted rows, each as many times as the input holds it |
| Lists.FilterSucceeds | sqlparser.py:143-151 | the filter succeeds exactly when the step succeeds on every row |
| Lists.FilterKeeps | sqlparser.py:143-151 | a successful filter is a subsequence of its input holding every accepted row and nothing else |
| Lists.FilterCounts | sqlparser.py:143-151 | a successful filter holds each accepted value as many times as the input does, and no rejected value |
| Lists.FilterFails | sqlparser.py:144-148 | a failing filter fails with the error of the first row on which the step fails |
| Lists.FilterAll | sqlparser.py:149-151 | a step that accepts every row keeps the whole table |
| Lists.FilterConcat | sqlparser.py:143-151 | filtering distributes over concatenation, with the first part's failure first |
| Lists.FilterStep | sqlparser.py:144-151 | one turn of the filtering loop appends the row exactly when it is accepted |
| Lists.FilterStepFails | sqlparser.py:144-148 | a turn whose step fails makes the whole filter fail with that error |
| Lists.MapAll | sqlparser.py:153-156 | a successful map has one output per input |
| Lists.MapAllExact | sqlparser.py:153-156 | the map succeeds exactly when every step succeeds, and its i-th output is the step applied to the i-th input |
| Lists.MapAllIdentity | sqlparser.py:153-156 | a step that returns its input maps the sequence to itself |
| Lists.MapAllConcat | sqlparser.py:153-156 | mapping distributes over concatenation, with the first part's failure first |
| Lists.MapAllStep | sqlparser.py:155-156 | one turn of the projecting loop appends the row's projection |
| Lists.MapAllStepFails | sqlparser.py:155-156 | a turn whose projection fails makes the whole map fail with that error |
| Select.FirstMissing | sqlparser.py:134-135 | there is no missing column exactly when the row has every requested column; otherwise the result is the first requested column it lacks |
| Select.FirstMissingConcat | sqlparser.py:134-135 | the first missing column of a longer request comes from its first part when that part has one |
| Select.Pick | sqlparser.py:133-136 | picking columns gives exactly those keys, in that order, each with the row's value |
| Select.Projection | sqlparser.py:119-136 | a projection fails only for an explicit list, with `MissingColumn` of a requested column the row lacks; an explicit projection's keys are the request with duplicates at their first position, each with the row's value |
| Select.WildcardProjection | sqlparser.py:130-131 | `*` hands the row back unchanged |
| Select.NamedProjection | sqlparser.py:132-136 | an explicit projection succeeds exactly when every requested column is present; its keys are then the request with duplicates at their first position, unique, each with the row's value |
| Select.NamedProjectionFails | sqlparser.py:134-135 | an explicit projection fails with `MissingColumn` of the first requested column that the row lacks |
| Select.PickAssignPresent | sqlparser.py:135 | assigning a column already projected leaves the projection as it was |
| Select.PickSnoc | sqlparser.py:135 | projecting one more column appends its field |
| Select.PickAssignAbsent | sqlparser.py:135 | assigning a new column appends it with the row's value |
| Select.ProjectionStep | sqlparser.py:134-135 | one loop turn on a present column extends the projection of the request's prefix to the next prefix |
| Select.GetProjection | sqlparser.py:119-136 | the loop computes `Projection`: the whole row for `*`, the deduplicated columns with the row's values, or the first missing column's error |
| Select.Matches | sqlparser.py:145-151 | without WHERE every row passes; a WHERE tree fails only with `MissingColumn` of a column it refers to and the row lacks, so a row holding all of them never fails |
| Select.SelectedExact | sqlparser.py:143-151 | the WHERE filter keeps, in table order, exactly the rows on which it holds, each as many times as the table holds it, or fails when it fails on some row |
| Select.SelectedFails | sqlparser.py:144-148 | the selection fails with the error of the first row whose WHERE tree fails |
| Select.SelectedAll | sqlparser.py:149-151 | without WHERE every row is kept, in order |
| Select.ProjectAllExact | sqlparser.py:153-156 | projection of the kept rows succeeds exactly when every kept row projects; output i is the projection of kept row i |
| Select.ProjectAllWildcard | sqlparser.py:153-156 | projecting with `*` returns the rows unchanged |
| Select.Query | sqlparser.py:139-158 | an unknown table fails with `UnknownTable`; a successful answer is no longer than the table |
| Select.QueryRows | sqlparser.py:139-158 | every output row is the projection of a table row that passes the filter, and outputs follow table order one for one |
| Select.QueryValidRows | sqlparser.py:139-158 | over a store whose rows all have unique keys, every answer row has unique keys |
| Select.QueryWithoutWhere | sqlparser.py:149-151 | without WHERE the answer is the projection of every row of the table |
| Select.SelectStar | sqlparser.py:130-158 | `SELECT * FROM t` returns the rows of `t` unchanged and in order |
| Select.EvaluateSelectStatement | sqlparser.py:139-158 | the method's two loops, filtering then projecting, compute `Query`, including which error surfaces first |
| Demo.ExampleFilterOnRow | example.py:37 | `value > 30 OR name = 'Name2'` is the disjunction of the two comparisons on any row holding both columns |
| Demo.ExampleFilterOnRecord | example.py:37 | the same on each of the example's records |
| Demo.RecordsExample | example.py:8-38 | the example query returns the second and the fourth record, in table order |
| Where.EvalConditionAsWritten | sqlparser.py:101-104 | IN and NOT IN as written, with the group's containment test; every other operator, and every missing column, behave as in `EvalCondition` |
| Where.AsWrittenMembershipConstant | sqlparser.py:101-104 | as written, IN is false and NOT IN true on every row holding the column, whatever the literals |
| Where.AsWrittenMembershipExample | sqlparser.py:101-102 | `id IN (1, 3)` on a row with `id` 1 is false as written and true in `EvalCondition` |

## Left out

- The grammar (sqlparser.py:20-85) is not modelled: pyparsing, `parseString` and case-insensitive keywords. The executor takes the parse result as a `SelectStatement` value, and `WellTyped`, `WellFormed` and `ValidColumns` state the shape the grammar gives it. A statement that does not parse, and its pyparsing exception, therefore have no counterpart here.
- Real-number literals (sqlparser.py:36) are left out. Floating point is outside the model, so values are integers and strings only.
- The implicit `None` results are excluded by types, not modelled. An operator tag outside the eight (after line 104) and a list keyword other than AND/OR (after line 114) both return `None`; the `Op` datatype and `WellFormed` rule them out, as the grammar does.
- Python 2 dictionary iteration order is taken as the row's sequence order. The order that `OrderedDict(row)` and `SELECT *` give is therefore modelled as field order, not as hash order.
- The result types are left out: a projection is an `OrderedDict` for named columns and a copy of the row for `*`, and both are modelled as a `Row`. Object identity and copying are likewise not modelled; the result of `*` equals the row.
- Strings are sequences of characters compared by character code. Python 2 byte-string comparison on encoded text is not modelled.
- `Results` carries only the two `KeyError`s. A `TypeError` from comparing other kinds of Python values cannot arise with integer and string values.
- The `print` in example.py is output only; `Demo.RecordsExample` states the value that it prints.
- `Where.LiteralGroup` models only the containment test of the parser's group. It stands for pyparsing's `ParseResults`, whose `in` asks for a defined result name, and the grammar defines none on the list of literals.

## Findings

| source | as written | input that shows it | evidently intended | confidence | as-written member | corrected member |
|---|---|---|---|---|---|---|
| sqlparser.py:101-104 | `rhs` of IN / NOT IN is the grammar's `Group` of literals (sqlparser.py:56), a pyparsing `ParseResults`; its `in` tests for a result name, so IN is always False and NOT IN always True on a present column | `SELECT * FROM t WHERE id IN (1, 3)` on a row with `id` 1 drops the row | IN holds exactly when some literal equals the row's value, NOT IN when none does | not executed; rests on pyparsing's `ParseResults.__contains__` testing result names | Where.EvalConditionAsWritten, Where.AsWrittenMembershipConstant, Where.AsWrittenMembershipExample | Where.EvalCondition, Where.MembershipMeaning |
