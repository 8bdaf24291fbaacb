/**
 * The table assigner of score_processor.py (`process_assignment`): for every
 * row and every subject, convert the raw cell, match it against the subject's
 * rules, write `<subject>_赋分`, total the row into `赋分总分`, and lay out
 * the columns.
 *
 * The functions below are the specification: they describe, by folds over the
 * subjects and over the rows in the order the source visits them, the table
 * the source produces. The methods at the end are the source's loops, proved
 * to produce exactly that table.
 */
module Assigner {
  import opened Wrappers
  import opened Matcher
  import opened Names

  /** A cell of the result table: text copied from the input, or a number written by the assigner. */
  datatype Cell = Text(text: string) | Num(value: real)

  /** The empty string the source writes where no value is assigned. */
  const Blank: Cell := Text("")

  /** A table: its column names in order, and one map from column name to cell per row. */
  datatype Table<T> = Table(columns: seq<string>, rows: seq<map<string, T>>)

  /** Every row has a cell for exactly the table's columns. */
  predicate WellFormed<T>(t: Table<T>) {
    forall i :: 0 <= i < |t.rows| ==> t.rows[i].Keys == set c | c in t.columns
  }

  /** The raw score table: every cell is a string, blanks already turned into "". */
  type RawTable = Table<string>

  /** The rule table after numeric coercion: None where a cell was not numeric. */
  type RuleTable = Table<Option<real>>

  /**
   * The failures the assigner raises: a rule-table column it looks up is
   * missing (the KeyError of line 90), or the subject is itself named `赋分值`,
   * so that the selection of line 90 holds that label twice and the sort of
   * line 50 rejects it as ambiguous (a ValueError).
   */
  datatype AssignError = MissingRuleColumn(subject: string) | DuplicateRuleColumn(subject: string)

  /** The rule one rule-table row gives `subject`, when both of its cells are defined. */
  function PairAt(row: map<string, Option<real>>, subject: string): Option<Rule> {
    if AssignedValueColumn in row && subject in row && row[AssignedValueColumn].Some? && row[subject].Some?
    then Some(Rule(row[AssignedValueColumn].value, row[subject].value))
    else None
  }

  /** `df_score[['赋分值', subject]].dropna()` as a rule list, in row order. */
  function RulePairs(rows: seq<map<string, Option<real>>>, subject: string): seq<Rule> {
    if rows == [] then []
    else
      match PairAt(rows[0], subject)
      case Some(p) => [p] + RulePairs(rows[1..], subject)
      case None => RulePairs(rows[1..], subject)
  }

  /** A rule is in the subject's rule list exactly when some rule-table row defines both of its cells with its values. */
  lemma {:induction false} RulePairsMembers(rows: seq<map<string, Option<real>>>, subject: string)
    ensures forall rule :: rule in RulePairs(rows, subject) <==> exists i :: 0 <= i < |rows| && PairAt(rows[i], subject) == Some(rule)
  {
    if rows != [] {
      RulePairsMembers(rows[1..], subject);
      assert forall i :: 1 <= i < |rows| ==> rows[i] == rows[1..][i - 1];
    }
  }

  /** The subject's rule set (score_processor.py:90), or None when the lookup raises a KeyError. */
  function SubjectRules(rt: RuleTable, subject: string): Option<seq<Rule>> {
    if AssignedValueColumn in rt.columns && subject in rt.columns then Some(RulePairs(rt.rows, subject)) else None
  }

  /**
   * The cell written to `<subject>_赋分` for a raw cell (score_processor.py:82-97),
   * or the exception raised on the way: the lookup of line 90, or the sort of
   * line 50 once `calculate_single_score` is reached with a column pair that
   * carries the label `赋分值` twice.
   */
  function SubjectCell(text: string, subject: string, rt: RuleTable, parse: string -> Option<real>): Result<Cell, AssignError> {
    match parse(text)
    case None => Ok(Blank)
    case Some(x) =>
      match SubjectRules(rt, subject)
      case None => Err(MissingRuleColumn(subject))
      case Some(rules) =>
        if rules == [] then Ok(Blank)
        else if subject == AssignedValueColumn then Err(DuplicateRuleColumn(subject))
        else
          match SingleScore(Some(x), rules)
          case None => Ok(Blank)
          case Some(v) => Ok(Num(v))
  }

  /**
   * What one row's pass over the subjects has produced: the generated cells
   * written so far, and the accumulators `total_assigned` and `assigned_count`.
   */
  datatype RowAcc = RowAcc(cells: map<string, Cell>, total: real, count: nat)

  /** Processing one subject for one row (one iteration of score_processor.py:77-102). */
  function SubjectStep(acc: RowAcc, row: map<string, string>, cols: seq<string>, subject: string,
                       rt: RuleTable, parse: string -> Option<real>): Result<RowAcc, AssignError>
    requires forall c :: c in cols ==> c in row
  {
    if subject !in cols then Ok(acc)
    else
      match SubjectCell(row[subject], subject, rt, parse)
      case Err(e) => Err(e)
      case Ok(c) =>
        var cells := acc.cells[GeneratedName(subject) := c];
        if c.Num? then Ok(RowAcc(cells, acc.total + c.value, acc.count + 1)) else Ok(RowAcc(cells, acc.total, acc.count))
  }

  /** One row after the first `k` subjects. */
  function RowPrefix(row: map<string, string>, cols: seq<string>, subjects: seq<string>, k: nat,
                     rt: RuleTable, parse: string -> Option<real>): Result<RowAcc, AssignError>
    requires k <= |subjects|
    requires forall c :: c in cols ==> c in row
  {
    if k == 0 then Ok(RowAcc(map[], 0.0, 0))
    else
      match RowPrefix(row, cols, subjects, k - 1, rt, parse)
      case Err(e) => Err(e)
      case Ok(acc) => SubjectStep(acc, row, cols, subjects[k - 1], rt, parse)
  }

  /** One row after all subjects. */
  function RowAssignment(row: map<string, string>, cols: seq<string>, subjects: seq<string>,
                         rt: RuleTable, parse: string -> Option<real>): Result<RowAcc, AssignError>
    requires forall c :: c in cols ==> c in row
  {
    RowPrefix(row, cols, subjects, |subjects|, rt, parse)
  }

  /** The first `n` rows of the raw table, each after all subjects; the first failure stops everything. */
  function FirstPass(raw: RawTable, subjects: seq<string>, n: nat, rt: RuleTable,
                     parse: string -> Option<real>): (r: Result<seq<RowAcc>, AssignError>)
    requires WellFormed(raw) && n <= |raw.rows|
    ensures r.Ok? ==> |r.value| == n
  {
    if n == 0 then Ok([])
    else
      match FirstPass(raw, subjects, n - 1, rt, parse)
      case Err(e) => Err(e)
      case Ok(accs) =>
        match RowAssignment(raw.rows[n - 1], raw.columns, subjects, rt, parse)
        case Err(e) => Err(e)
        case Ok(acc) => Ok(accs + [acc])
  }

  /** The row's `赋分总分`: the total when some subject was assigned a value, "" otherwise (line 104). */
  function TotalCell(acc: RowAcc): Cell {
    if acc.count > 0 then Num(acc.total) else Blank
  }

  /** A raw row as result cells (`df_original.copy()`). */
  function ToCells(row: map<string, string>): map<string, Cell> {
    map c | c in row :: Text(row[c])
  }

  /** A finished row of the result: the raw cells, the generated cells over them, then the total. */
  function OutRow(row: map<string, string>, acc: RowAcc): map<string, Cell> {
    (ToCells(row) + acc.cells)[TotalColumn := TotalCell(acc)]
  }

  /** The generated columns some `.loc` write created. */
  function CreatedColumns(accs: seq<RowAcc>): set<string> {
    set i, k | 0 <= i < |accs| && k in accs[i].cells :: k
  }

  /** `df_result.columns` once the total column is added (line 107). */
  function CurrentColumns(cols: seq<string>, created: set<string>): set<string> {
    (set c | c in cols) + created + {TotalColumn}
  }

  /** An original column followed by its generated column when that exists (lines 114-116). */
  function AfterSubjectPiece(col: string, subjects: seq<string>, existing: set<string>): seq<string> {
    if col in subjects && GeneratedName(col) in existing then [col, GeneratedName(col)] else [col]
  }

  /** The `after_subject` order built so far over the original columns `cols`. */
  function AfterSubjectPrefix(cols: seq<string>, subjects: seq<string>, existing: set<string>): seq<string> {
    if cols == [] then []
    else AfterSubjectPrefix(cols[..|cols| - 1], subjects, existing) + AfterSubjectPiece(cols[|cols| - 1], subjects, existing)
  }

  /** The generated columns of `subjects` that exist, in subject order (line 121). */
  function ExistingGenerated(subjects: seq<string>, existing: set<string>): seq<string> {
    if subjects == [] then []
    else
      var s := subjects[|subjects| - 1];
      ExistingGenerated(subjects[..|subjects| - 1], existing) + (if GeneratedName(s) in existing then [GeneratedName(s)] else [])
  }

  /** The column order of score_processor.py:110-123 for a given `insert_position`. */
  function ColumnOrder(cols: seq<string>, subjects: seq<string>, existing: set<string>, position: string): seq<string> {
    if position == "after_subject" then AfterSubjectPrefix(cols, subjects, existing) + [TotalColumn]
    else cols + ExistingGenerated(subjects, existing) + [TotalColumn]
  }

  /** The table `process_assignment` returns, or the exception it raises. */
  function AssignedTable(raw: RawTable, rt: RuleTable, parse: string -> Option<real>, position: string): Result<Table<Cell>, AssignError>
    requires WellFormed(raw)
  {
    var subjects := Subjects(rt.columns);
    match FirstPass(raw, subjects, |raw.rows|, rt, parse)
    case Err(e) => Err(e)
    case Ok(accs) =>
      var existing := CurrentColumns(raw.columns, CreatedColumns(accs));
      Ok(Table(ColumnOrder(raw.columns, subjects, existing, position),
               seq(|accs|, i requires 0 <= i < |accs| => OutRow(raw.rows[i], accs[i]))))
  }

  /** Once a row fails, it stays failed whatever subjects follow. */
  lemma {:induction false} RowPrefixFailureSticks(row: map<string, string>, cols: seq<string>, subjects: seq<string>,
                                                  k: nat, m: nat, rt: RuleTable, parse: string -> Option<real>)
    requires k <= m <= |subjects|
    requires forall c :: c in cols ==> c in row
    requires RowPrefix(row, cols, subjects, k, rt, parse).Err?
    ensures RowPrefix(row, cols, subjects, m, rt, parse) == RowPrefix(row, cols, subjects, k, rt, parse)
  {
    if m > k {
      RowPrefixFailureSticks(row, cols, subjects, k, m - 1, rt, parse);
    }
  }

  /** Once a row fails, the whole pass fails with the same error. */
  lemma {:induction false} FirstPassFailureSticks(raw: RawTable, subjects: seq<string>, n: nat, m: nat,
                                                  rt: RuleTable, parse: string -> Option<real>)
    requires WellFormed(raw) && n <= m <= |raw.rows|
    requires FirstPass(raw, subjects, n, rt, parse).Err?
    ensures FirstPass(raw, subjects, m, rt, parse) == FirstPass(raw, subjects, n, rt, parse)
  {
    if m > n {
      FirstPassFailureSticks(raw, subjects, n, m - 1, rt, parse);
    }
  }

  /** A row after `k` subjects is the row after `k - 1` subjects, taken one step further. */
  lemma RowPrefixStep(row: map<string, string>, cols: seq<string>, subjects: seq<string>, k: nat,
                      rt: RuleTable, parse: string -> Option<real>)
    requires 0 < k <= |subjects|
    requires forall c :: c in cols ==> c in row
    requires RowPrefix(row, cols, subjects, k - 1, rt, parse).Ok?
    ensures RowPrefix(row, cols, subjects, k, rt, parse) ==
              SubjectStep(RowPrefix(row, cols, subjects, k - 1, rt, parse).value, row, cols, subjects[k - 1], rt, parse)
  {
  }

  /** Taking one subject whose raw cell gives the cell `c`: `c` is written, and counted when it is a number. */
  lemma SubjectStepWrites(acc: RowAcc, row: map<string, string>, cols: seq<string>, subject: string,
                          rt: RuleTable, parse: string -> Option<real>, c: Cell)
    requires forall c :: c in cols ==> c in row
    requires subject in cols && SubjectCell(row[subject], subject, rt, parse) == Ok(c)
    ensures c.Num? ==> SubjectStep(acc, row, cols, subject, rt, parse) ==
                         Ok(RowAcc(acc.cells[GeneratedName(subject) := c], acc.total + c.value, acc.count + 1))
    ensures !c.Num? ==> SubjectStep(acc, row, cols, subject, rt, parse) ==
                          Ok(RowAcc(acc.cells[GeneratedName(subject) := c], acc.total, acc.count))
  {
  }

  /**
   * One row of `process_assignment` (score_processor.py:74-104): the loop over
   * the subjects with the accumulators `total_assigned` and `assigned_count`,
   * collecting the generated cells the source writes with `.loc`.
   */
  method AssignRow(row: map<string, string>, cols: seq<string>, subjects: seq<string>,
                   rt: RuleTable, parse: string -> Option<real>) returns (r: Result<RowAcc, AssignError>)
    requires forall c :: c in cols ==> c in row
    ensures r == RowAssignment(row, cols, subjects, rt, parse)
  {
    var cells: map<string, Cell> := map[];
    var total := 0.0;
    var count := 0;
    var j := 0;
    while j < |subjects|
      invariant 0 <= j <= |subjects|
      invariant RowPrefix(row, cols, subjects, j, rt, parse) == Ok(RowAcc(cells, total, count))
    {
      var subject := subjects[j];
      ghost var acc := RowAcc(cells, total, count);
      RowPrefixStep(row, cols, subjects, j + 1, rt, parse);
      j := j + 1;
      if subject !in cols {
        continue;
      }
      var score := parse(row[subject]);
      if score.None? {
        SubjectStepWrites(acc, row, cols, subject, rt, parse, Blank);
        cells := cells[GeneratedName(subject) := Blank];
        continue;
      }
      var rules := SubjectRules(rt, subject);
      if rules.None? {
        assert SubjectCell(row[subject], subject, rt, parse) == Err(MissingRuleColumn(subject));
        RowPrefixFailureSticks(row, cols, subjects, j, |subjects|, rt, parse);
        return Err(MissingRuleColumn(subject));
      }
      if rules.value == [] {
        SubjectStepWrites(acc, row, cols, subject, rt, parse, Blank);
        cells := cells[GeneratedName(subject) := Blank];
        continue;
      }
      if subject == AssignedValueColumn {
        assert SubjectCell(row[subject], subject, rt, parse) == Err(DuplicateRuleColumn(subject));
        RowPrefixFailureSticks(row, cols, subjects, j, |subjects|, rt, parse);
        return Err(DuplicateRuleColumn(subject));
      }
      var matched := CalculateSingleScore(score, rules.value);
      if matched.Some? {
        SubjectStepWrites(acc, row, cols, subject, rt, parse, Num(matched.value));
        cells := cells[GeneratedName(subject) := Num(matched.value)];
        total := total + matched.value;
        count := count + 1;
      } else {
        SubjectStepWrites(acc, row, cols, subject, rt, parse, Blank);
        cells := cells[GeneratedName(subject) := Blank];
      }
    }
    return Ok(RowAcc(cells, total, count));
  }

  /** The pass over `n` rows is the pass over `n - 1` rows, followed by row `n - 1`. */
  lemma FirstPassStep(raw: RawTable, subjects: seq<string>, n: nat, rt: RuleTable, parse: string -> Option<real>)
    requires WellFormed(raw) && 0 < n <= |raw.rows|
    requires FirstPass(raw, subjects, n - 1, rt, parse).Ok?
    ensures RowAssignment(raw.rows[n - 1], raw.columns, subjects, rt, parse).Err? ==>
              FirstPass(raw, subjects, n, rt, parse) == Err(RowAssignment(raw.rows[n - 1], raw.columns, subjects, rt, parse).error)
    ensures RowAssignment(raw.rows[n - 1], raw.columns, subjects, rt, parse).Ok? ==>
              FirstPass(raw, subjects, n, rt, parse) ==
              Ok(FirstPass(raw, subjects, n - 1, rt, parse).value + [RowAssignment(raw.rows[n - 1], raw.columns, subjects, rt, parse).value])
  {
  }

  /** Recording one more row adds its generated columns to the created ones. */
  lemma CreatedColumnsStep(accs: seq<RowAcc>, acc: RowAcc)
    ensures CreatedColumns(accs + [acc]) == CreatedColumns(accs) + acc.cells.Keys
  {
    var all := accs + [acc];
    forall k | k in CreatedColumns(all)
      ensures k in CreatedColumns(accs) + acc.cells.Keys
    {
      var i :| 0 <= i < |all| && k in all[i].cells;
      if i < |accs| {
        assert all[i] == accs[i];
      }
    }
    forall k | k in CreatedColumns(accs) + acc.cells.Keys
      ensures k in CreatedColumns(all)
    {
      if k in acc.cells {
        assert all[|accs|] == acc;
      } else {
        var i :| 0 <= i < |accs| && k in accs[i].cells;
        assert all[i] == accs[i];
      }
    }
  }

  /**
   * The row loop of score_processor.py:72-104 over `df_result`: each row's
   * generated cells are written over the copied raw cells, the created columns
   * are recorded, and the row's total is kept in `totals` (`total_assigned_dict`).
   */
  method AssignRows(raw: RawTable, subjects: seq<string>, rt: RuleTable, parse: string -> Option<real>)
    returns (failure: Option<AssignError>, result: seq<map<string, Cell>>, created: set<string>, totals: seq<Cell>)
    requires WellFormed(raw)
    ensures failure.Some? <==> FirstPass(raw, subjects, |raw.rows|, rt, parse).Err?
    ensures failure.Some? ==> failure.value == FirstPass(raw, subjects, |raw.rows|, rt, parse).error
    ensures failure.None? ==>
              var accs := FirstPass(raw, subjects, |raw.rows|, rt, parse).value;
              && |result| == |totals| == |accs| == |raw.rows|
              && (forall i :: 0 <= i < |raw.rows| ==> result[i] == ToCells(raw.rows[i]) + accs[i].cells && totals[i] == TotalCell(accs[i]))
              && created == CreatedColumns(accs)
  {
    result := seq(|raw.rows|, i requires 0 <= i < |raw.rows| => ToCells(raw.rows[i]));
    ghost var copy := result;
    created, totals := {}, [];
    ghost var accs: seq<RowAcc> := [];
    var idx := 0;
    while idx < |raw.rows|
      invariant 0 <= idx <= |raw.rows|
      invariant FirstPass(raw, subjects, idx, rt, parse) == Ok(accs)
      invariant |result| == |raw.rows| && |totals| == idx
      invariant forall i :: 0 <= i < idx ==> result[i] == copy[i] + accs[i].cells && totals[i] == TotalCell(accs[i])
      invariant forall i :: idx <= i < |raw.rows| ==> result[i] == copy[i]
      invariant created == CreatedColumns(accs)
    {
      var r := AssignRow(raw.rows[idx], raw.columns, subjects, rt, parse);
      FirstPassStep(raw, subjects, idx + 1, rt, parse);
      if r.Err? {
        assert FirstPass(raw, subjects, |raw.rows|, rt, parse) == Err(r.error) by {
          FirstPassFailureSticks(raw, subjects, idx + 1, |raw.rows|, rt, parse);
        }
        return Some(r.error), result, created, totals;
      }
      result := result[idx := result[idx] + r.value.cells];
      created := created + r.value.cells.Keys;
      totals := totals + [TotalCell(r.value)];
      CreatedColumnsStep(accs, r.value);
      accs := accs + [r.value];
      idx := idx + 1;
    }
    assert forall i :: 0 <= i < |raw.rows| ==> copy[i] == ToCells(raw.rows[i]);
    return None, result, created, totals;
  }

  /** The column layout of score_processor.py:110-123, built with `append` as the source does. */
  method LayoutColumns(cols: seq<string>, subjects: seq<string>, existing: set<string>, position: string)
    returns (order: seq<string>)
    ensures order == ColumnOrder(cols, subjects, existing, position)
  {
    order := [];
    if position == "after_subject" {
      for k := 0 to |cols|
        invariant order == AfterSubjectPrefix(cols[..k], subjects, existing)
      {
        var col := cols[k];
        assert cols[..k + 1][..k] == cols[..k];
        order := order + [col];
        if col in subjects && GeneratedName(col) in existing {
          order := order + [GeneratedName(col)];
        }
      }
      assert cols[..|cols|] == cols;
      order := order + [TotalColumn];
    } else {
      var assignedCols: seq<string> := [];
      for k := 0 to |subjects|
        invariant assignedCols == ExistingGenerated(subjects[..k], existing)
      {
        assert subjects[..k + 1][..k] == subjects[..k];
        if GeneratedName(subjects[k]) in existing {
          assignedCols := assignedCols + [GeneratedName(subjects[k])];
        }
      }
      assert subjects[..|subjects|] == subjects;
      order := cols + assignedCols + [TotalColumn];
    }
  }

  /**
   * `process_assignment` (score_processor.py:58-125): derive the subjects, run
   * the row loop, add the total column, and lay out the columns by `position`.
   * The source's default `insert_position='after_subject'` is not a default
   * here: callers pass "after_subject" for it.
   */
  method ProcessAssignment(raw: RawTable, rt: RuleTable, parse: string -> Option<real>, position: string)
    returns (res: Result<Table<Cell>, AssignError>)
    requires WellFormed(raw)
    ensures res == AssignedTable(raw, rt, parse, position)
  {
    var subjects := Subjects(rt.columns);
    var failure, result, created, totals := AssignRows(raw, subjects, rt, parse);
    if failure.Some? {
      return Err(failure.value);
    }
    ghost var accs := FirstPass(raw, subjects, |raw.rows|, rt, parse).value;
    result := seq(|result|, i requires 0 <= i < |result| => result[i][TotalColumn := totals[i]]);
    assert result == seq(|accs|, i requires 0 <= i < |accs| => OutRow(raw.rows[i], accs[i]));
    var existing := CurrentColumns(raw.columns, created);
    var order := LayoutColumns(raw.columns, subjects, existing, position);
    res := Ok(Table(order, result));
  }
}
