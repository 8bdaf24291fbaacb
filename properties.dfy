/**
 * What `process_assignment` promises, proved about the specification in
 * module Assigner (and so, through the methods' postconditions, about the
 * source's loops): which generated cells and columns exist and what they
 * hold, the row total, when the operation fails, and the two column layouts.
 */
module AssignerProperties {
  import opened Wrappers
  import opened Matcher
  import opened Names
  import opened Assigner

  /** The generated names of the subjects in `subjects` that are also columns in `cols`. */
  function GeneratedSet(subjects: seq<string>, cols: seq<string>): set<string> {
    set s | s in subjects && s in cols :: GeneratedName(s)
  }

  /**
   * The values of the non-empty generated cells of `row`: one value per
   * occurrence in `subjects` of a subject that is a column of `cols`, so a
   * subject listed twice contributes its value twice.
   */
  function GeneratedValues(row: map<string, Cell>, cols: seq<string>, subjects: seq<string>): seq<real> {
    if subjects == [] then []
    else
      var s := subjects[|subjects| - 1];
      GeneratedValues(row, cols, subjects[..|subjects| - 1]) +
        (if s in cols && GeneratedName(s) in row && row[GeneratedName(s)].Num? then [row[GeneratedName(s)].value] else [])
  }

  /** The sum of a sequence of values, added from left to right. */
  function Sum(xs: seq<real>): real {
    if xs == [] then 0.0 else Sum(xs[..|xs| - 1]) + xs[|xs| - 1]
  }

  /** `GeneratedValues` looks only at the generated cells of the subjects it is given. */
  lemma {:induction false} GeneratedValuesLocal(m1: map<string, Cell>, m2: map<string, Cell>, cols: seq<string>, subjects: seq<string>)
    requires forall s :: s in subjects && s in cols ==>
               (GeneratedName(s) in m1 <==> GeneratedName(s) in m2) &&
               (GeneratedName(s) in m1 ==> m1[GeneratedName(s)] == m2[GeneratedName(s)])
    ensures GeneratedValues(m1, cols, subjects) == GeneratedValues(m2, cols, subjects)
  {
    if subjects != [] {
      var init := subjects[..|subjects| - 1];
      assert forall s :: s in init ==> s in subjects;
      GeneratedValuesLocal(m1, m2, cols, init);
    }
  }

  /**
   * After the first `k` subjects of a row, a generated cell exists exactly for
   * the subjects seen that are raw columns, and each holds what `SubjectCell`
   * gives for that subject's raw cell.
   */
  lemma {:induction false} RowPrefixCells(row: map<string, string>, cols: seq<string>, subjects: seq<string>, k: nat,
                                          rt: RuleTable, parse: string -> Option<real>)
    requires k <= |subjects|
    requires forall c :: c in cols ==> c in row
    requires RowPrefix(row, cols, subjects, k, rt, parse).Ok?
    ensures RowPrefix(row, cols, subjects, k, rt, parse).value.cells.Keys == GeneratedSet(subjects[..k], cols)
    ensures forall s :: s in subjects[..k] && s in cols ==>
              SubjectCell(row[s], s, rt, parse) == Ok(RowPrefix(row, cols, subjects, k, rt, parse).value.cells[GeneratedName(s)])
  {
    if k > 0 {
      RowPrefixCells(row, cols, subjects, k - 1, rt, parse);
      var prev := RowPrefix(row, cols, subjects, k - 1, rt, parse).value;
      var acc := RowPrefix(row, cols, subjects, k, rt, parse).value;
      var s := subjects[k - 1];
      assert subjects[..k] == subjects[..k - 1] + [s];
      if s in cols {
        assert acc.cells == prev.cells[GeneratedName(s) := SubjectCell(row[s], s, rt, parse).value];
        assert GeneratedSet(subjects[..k], cols) == GeneratedSet(subjects[..k - 1], cols) + {GeneratedName(s)};
        forall t | t in subjects[..k] && t in cols
          ensures SubjectCell(row[t], t, rt, parse) == Ok(acc.cells[GeneratedName(t)])
        {
          if t != s && GeneratedName(t) == GeneratedName(s) {
            GeneratedNameInjective(t, s);
          }
        }
      } else {
        assert GeneratedSet(subjects[..k], cols) == GeneratedSet(subjects[..k - 1], cols);
      }
    }
  }

  /** A row fails exactly when some subject seen so far, present in the raw table, has a failing cell. */
  lemma {:induction false} RowPrefixFailure(row: map<string, string>, cols: seq<string>, subjects: seq<string>, k: nat,
                                            rt: RuleTable, parse: string -> Option<real>)
    requires k <= |subjects|
    requires forall c :: c in cols ==> c in row
    ensures RowPrefix(row, cols, subjects, k, rt, parse).Err? <==>
              exists j :: 0 <= j < k && subjects[j] in cols && SubjectCell(row[subjects[j]], subjects[j], rt, parse).Err?
  {
    if k > 0 {
      RowPrefixFailure(row, cols, subjects, k - 1, rt, parse);
    }
  }

  /** The accumulators of a row are the count and the sum of its non-empty generated values. */
  lemma {:induction false} RowPrefixTotal(row: map<string, string>, cols: seq<string>, subjects: seq<string>, k: nat,
                                          rt: RuleTable, parse: string -> Option<real>)
    requires k <= |subjects|
    requires forall c :: c in cols ==> c in row
    requires RowPrefix(row, cols, subjects, k, rt, parse).Ok?
    ensures var acc := RowPrefix(row, cols, subjects, k, rt, parse).value;
            acc.count == |GeneratedValues(acc.cells, cols, subjects[..k])| &&
            acc.total == Sum(GeneratedValues(acc.cells, cols, subjects[..k]))
  {
    if k > 0 {
      RowPrefixTotal(row, cols, subjects, k - 1, rt, parse);
      RowPrefixCells(row, cols, subjects, k - 1, rt, parse);
      var prev := RowPrefix(row, cols, subjects, k - 1, rt, parse).value;
      var acc := RowPrefix(row, cols, subjects, k, rt, parse).value;
      var s := subjects[k - 1];
      assert subjects[..k][..k - 1] == subjects[..k - 1];
      forall t | t in subjects[..k - 1] && t in cols
        ensures (GeneratedName(t) in acc.cells <==> GeneratedName(t) in prev.cells) &&
                (GeneratedName(t) in acc.cells ==> acc.cells[GeneratedName(t)] == prev.cells[GeneratedName(t)])
      {
        if GeneratedName(t) == GeneratedName(s) {
          GeneratedNameInjective(t, s);
        }
      }
      GeneratedValuesLocal(acc.cells, prev.cells, cols, subjects[..k - 1]);
      var before := GeneratedValues(prev.cells, cols, subjects[..k - 1]);
      if s in cols && acc.cells[GeneratedName(s)].Num? {
        assert GeneratedValues(acc.cells, cols, subjects[..k]) == before + [acc.cells[GeneratedName(s)].value];
        assert (before + [acc.cells[GeneratedName(s)].value])[..|before|] == before;
      } else {
        assert GeneratedValues(acc.cells, cols, subjects[..k]) == before;
      }
    }
  }

  /** Each raw row has a cell for every raw column. */
  lemma RowsCoverColumns(raw: RawTable)
    requires WellFormed(raw)
    ensures forall i, c :: 0 <= i < |raw.rows| && c in raw.columns ==> c in raw.rows[i]
  {
    forall i, c | 0 <= i < |raw.rows| && c in raw.columns
      ensures c in raw.rows[i]
    {
      assert c in set c | c in raw.columns;
    }
  }

  /** A successful pass over `n` rows holds, for each row, that row's own assignment. */
  lemma {:induction false} FirstPassRows(raw: RawTable, subjects: seq<string>, n: nat, rt: RuleTable, parse: string -> Option<real>)
    requires WellFormed(raw) && n <= |raw.rows|
    requires FirstPass(raw, subjects, n, rt, parse).Ok?
    ensures forall i :: 0 <= i < n ==>
              RowAssignment(raw.rows[i], raw.columns, subjects, rt, parse) == Ok(FirstPass(raw, subjects, n, rt, parse).value[i])
  {
    if n > 0 {
      FirstPassRows(raw, subjects, n - 1, rt, parse);
    }
  }

  /** The pass over `n` rows fails exactly when one of those rows fails. */
  lemma {:induction false} FirstPassFailure(raw: RawTable, subjects: seq<string>, n: nat, rt: RuleTable, parse: string -> Option<real>)
    requires WellFormed(raw) && n <= |raw.rows|
    ensures FirstPass(raw, subjects, n, rt, parse).Err? <==>
              exists i :: 0 <= i < n && RowAssignment(raw.rows[i], raw.columns, subjects, rt, parse).Err?
  {
    if n > 0 {
      FirstPassFailure(raw, subjects, n - 1, rt, parse);
    }
  }

  /** When every row writes the same generated columns, those are the created columns, if there is a row. */
  lemma CreatedColumnsAre(accs: seq<RowAcc>, generated: set<string>)
    requires forall i :: 0 <= i < |accs| ==> accs[i].cells.Keys == generated
    ensures CreatedColumns(accs) == if |accs| > 0 then generated else {}
  {
    if |accs| > 0 {
      forall k | k in generated
        ensures k in CreatedColumns(accs)
      {
        assert k in accs[0].cells;
      }
    }
  }

  /**
   * The rows the first pass produces for the whole raw table. The operation
   * succeeds exactly when this pass does (`AssignerFailure.AssignedFailure`).
   */
  function Pass(raw: RawTable, rt: RuleTable, parse: string -> Option<real>): Result<seq<RowAcc>, AssignError>
    requires WellFormed(raw)
  {
    FirstPass(raw, Subjects(rt.columns), |raw.rows|, rt, parse)
  }

  /** `subject` is configured in the rule table and is a column of the raw table. */
  predicate Present(raw: RawTable, rt: RuleTable, subject: string) {
    subject in Subjects(rt.columns) && subject in raw.columns
  }

  /** No column of the raw table is named like a column the assigner generates. */
  predicate NoCollisions(raw: RawTable, rt: RuleTable) {
    TotalColumn !in raw.columns && forall s :: s in Subjects(rt.columns) ==> GeneratedName(s) !in raw.columns
  }

  /** What a row that does not fail holds after all subjects. */
  lemma RowAssignmentFacts(row: map<string, string>, cols: seq<string>, subjects: seq<string>,
                           rt: RuleTable, parse: string -> Option<real>, acc: RowAcc)
    requires forall c :: c in cols ==> c in row
    requires RowAssignment(row, cols, subjects, rt, parse) == Ok(acc)
    ensures acc.cells.Keys == GeneratedSet(subjects, cols)
    ensures forall s :: s in subjects && s in cols ==> SubjectCell(row[s], s, rt, parse) == Ok(acc.cells[GeneratedName(s)])
    ensures acc.count == |GeneratedValues(acc.cells, cols, subjects)|
    ensures acc.total == Sum(GeneratedValues(acc.cells, cols, subjects))
  {
    assert subjects[..|subjects|] == subjects;
    RowPrefixCells(row, cols, subjects, |subjects|, rt, parse);
    RowPrefixTotal(row, cols, subjects, |subjects|, rt, parse);
  }

  /**
   * Every row of a successful pass has a generated cell for exactly the
   * present subjects, that cell is what `SubjectCell` gives, and the row's
   * accumulators are the count and sum of its non-empty generated values.
   */
  lemma PassRows(raw: RawTable, rt: RuleTable, parse: string -> Option<real>, i: nat)
    requires WellFormed(raw)
    requires Pass(raw, rt, parse).Ok? && i < |raw.rows|
    ensures |Pass(raw, rt, parse).value| == |raw.rows|
    ensures forall c :: c in raw.columns ==> c in raw.rows[i]
    ensures RowAssignment(raw.rows[i], raw.columns, Subjects(rt.columns), rt, parse) == Ok(Pass(raw, rt, parse).value[i])
  {
    RowsCoverColumns(raw);
    FirstPassRows(raw, Subjects(rt.columns), |raw.rows|, rt, parse);
  }

  /**
   * A successful assignment is the successful pass with each raw row under
   * its generated cells and total, laid out from the raw columns and the
   * generated columns that exist (all present subjects', if there is a row).
   */
  lemma AssignedShape(raw: RawTable, rt: RuleTable, parse: string -> Option<real>, position: string)
    requires WellFormed(raw)
    requires AssignedTable(raw, rt, parse, position).Ok?
    ensures Pass(raw, rt, parse).Ok?
    ensures |AssignedTable(raw, rt, parse, position).value.rows| == |raw.rows|
    ensures forall i :: 0 <= i < |raw.rows| ==>
              AssignedTable(raw, rt, parse, position).value.rows[i] == OutRow(raw.rows[i], Pass(raw, rt, parse).value[i])
    ensures AssignedTable(raw, rt, parse, position).value.columns ==
              ColumnOrder(raw.columns, Subjects(rt.columns), Existing(raw, rt), position)
  {
    var accs := Pass(raw, rt, parse).value;
    forall i | 0 <= i < |accs|
      ensures accs[i].cells.Keys == GeneratedSet(Subjects(rt.columns), raw.columns)
    {
      PassRows(raw, rt, parse, i);
      RowAssignmentFacts(raw.rows[i], raw.columns, Subjects(rt.columns), rt, parse, accs[i]);
    }
    CreatedColumnsAre(accs, GeneratedSet(Subjects(rt.columns), raw.columns));
  }

  /** `df_result.columns` at layout time, once the row loop has run over every row. */
  function Existing(raw: RawTable, rt: RuleTable): set<string> {
    ExistingFor(raw.columns, Subjects(rt.columns), |raw.rows| > 0)
  }

  /** `df_result.columns` at layout time for raw columns `cols`, subjects `subjects`, and whether there was a row. */
  function ExistingFor(cols: seq<string>, subjects: seq<string>, hasRows: bool): set<string> {
    CurrentColumns(cols, if hasRows then GeneratedSet(subjects, cols) else {})
  }

  /** The set of elements of a column list. */
  function Elems(xs: seq<string>): set<string> {
    set x | x in xs
  }

  /** The elements of `xs` that are in `keep`, in order. */
  function Keep(xs: seq<string>, keep: set<string>): seq<string> {
    if xs == [] then []
    else Keep(xs[..|xs| - 1], keep) + (if xs[|xs| - 1] in keep then [xs[|xs| - 1]] else [])
  }

  /** The generated names of the subjects that are columns in `cols`, one per occurrence, in subject order. */
  function PresentGenerated(subjects: seq<string>, cols: seq<string>): seq<string> {
    if subjects == [] then []
    else
      var s := subjects[|subjects| - 1];
      PresentGenerated(subjects[..|subjects| - 1], cols) + (if s in cols then [GeneratedName(s)] else [])
  }

  /** A generated name is in `GeneratedSet` exactly when its subject is listed and is a column. */
  lemma GeneratedSetMember(subjects: seq<string>, cols: seq<string>, s: string)
    ensures GeneratedName(s) in GeneratedSet(subjects, cols) <==> s in subjects && s in cols
  {
    if GeneratedName(s) in GeneratedSet(subjects, cols) {
      var t :| t in subjects && t in cols && GeneratedName(t) == GeneratedName(s);
      GeneratedNameInjective(s, t);
    }
  }

  /** The `after_subject` order holds every original column, and the generated columns that exist. */
  lemma {:induction false} AfterSubjectMembers(cols: seq<string>, subjects: seq<string>, existing: set<string>)
    ensures forall x :: x in AfterSubjectPrefix(cols, subjects, existing) ==> x in cols || x in existing
    ensures forall c :: c in cols ==> c in AfterSubjectPrefix(cols, subjects, existing)
    ensures forall c :: c in cols && c in subjects && GeneratedName(c) in existing ==>
              GeneratedName(c) in AfterSubjectPrefix(cols, subjects, existing)
  {
    if cols != [] {
      var init := cols[..|cols| - 1];
      AfterSubjectMembers(init, subjects, existing);
      assert cols == init + [cols[|cols| - 1]];
    }
  }

  /** The generated part of the `end` order holds exactly the generated names that exist. */
  lemma {:induction false} ExistingGeneratedMembers(subjects: seq<string>, existing: set<string>)
    ensures forall x :: x in ExistingGenerated(subjects, existing) ==> x in existing
    ensures forall s :: s in subjects && GeneratedName(s) in existing ==> GeneratedName(s) in ExistingGenerated(subjects, existing)
  {
    if subjects != [] {
      var init := subjects[..|subjects| - 1];
      ExistingGeneratedMembers(init, existing);
      assert subjects == init + [subjects[|subjects| - 1]];
    }
  }

  /** The column set of either layout, for any subjects. */
  lemma LayoutColumnSetFor(cols: seq<string>, subjects: seq<string>, hasRows: bool, position: string)
    ensures Elems(ColumnOrder(cols, subjects, ExistingFor(cols, subjects, hasRows), position)) == ExistingFor(cols, subjects, hasRows)
  {
    var ex := ExistingFor(cols, subjects, hasRows);
    var order := ColumnOrder(cols, subjects, ex, position);
    AfterSubjectMembers(cols, subjects, ex);
    ExistingGeneratedMembers(subjects, ex);
    forall x | x in ex
      ensures x in order
    {
      if x !in cols && x != TotalColumn {
        var t :| t in subjects && t in cols && x == GeneratedName(t);
      }
    }
  }

  /**
   * Under either layout the result has exactly the columns of `df_result`:
   * the raw columns, the generated columns that exist, and the total.
   */
  lemma LayoutColumnSet(raw: RawTable, rt: RuleTable, position: string)
    ensures Elems(ColumnOrder(raw.columns, Subjects(rt.columns), Existing(raw, rt), position)) == Existing(raw, rt)
  {
    LayoutColumnSetFor(raw.columns, Subjects(rt.columns), |raw.rows| > 0, position);
  }

  /** A generated name is a column of `df_result` exactly when its subject is present and there is a row. */
  lemma ExistingGeneratedNameFor(cols: seq<string>, subjects: seq<string>, hasRows: bool, s: string)
    requires s in subjects && GeneratedName(s) !in cols
    ensures GeneratedName(s) in ExistingFor(cols, subjects, hasRows) <==> hasRows && s in cols
  {
    GeneratedNameIsNotTotal(s);
    GeneratedSetMember(subjects, cols, s);
  }

  /** In a finished row, the generated cell of a present subject is what `SubjectCell` gives. */
  lemma OutRowGeneratedCell(row: map<string, string>, cols: seq<string>, subjects: seq<string>,
                            rt: RuleTable, parse: string -> Option<real>, acc: RowAcc, s: string)
    requires forall c :: c in cols ==> c in row
    requires RowAssignment(row, cols, subjects, rt, parse) == Ok(acc)
    requires s in subjects && s in cols
    ensures GeneratedName(s) in OutRow(row, acc)
    ensures SubjectCell(row[s], s, rt, parse) == Ok(OutRow(row, acc)[GeneratedName(s)])
  {
    RowAssignmentFacts(row, cols, subjects, rt, parse, acc);
    GeneratedNameIsNotTotal(s);
    GeneratedSetMember(subjects, cols, s);
    OutRowCell(row, acc, GeneratedName(s));
  }

  /** A finished row holds each generated cell of its assignment unchanged. */
  lemma OutRowCell(row: map<string, string>, acc: RowAcc, k: string)
    requires k in acc.cells && k != TotalColumn
    ensures k in OutRow(row, acc) && OutRow(row, acc)[k] == acc.cells[k]
  {
    var merged := ToCells(row) + acc.cells;
    assert merged[k] == acc.cells[k];
  }

  /** A finished row has a generated cell exactly where its assignment has one. */
  lemma OutRowCellFor(row: map<string, string>, acc: RowAcc, s: string)
    ensures GeneratedName(s) in OutRow(row, acc) <==> GeneratedName(s) in ToCells(row) || GeneratedName(s) in acc.cells
    ensures GeneratedName(s) in acc.cells ==> OutRow(row, acc)[GeneratedName(s)] == acc.cells[GeneratedName(s)]
  {
    GeneratedNameIsNotTotal(s);
    if GeneratedName(s) in acc.cells {
      OutRowCell(row, acc, GeneratedName(s));
    }
  }

  /** In a finished row, the total is the sum of the non-empty generated values, or "" when there is none. */
  lemma OutRowTotal(row: map<string, string>, cols: seq<string>, subjects: seq<string>,
                    rt: RuleTable, parse: string -> Option<real>, acc: RowAcc)
    requires forall c :: c in cols ==> c in row
    requires RowAssignment(row, cols, subjects, rt, parse) == Ok(acc)
    ensures TotalColumn in OutRow(row, acc)
    ensures var values := GeneratedValues(OutRow(row, acc), cols, subjects);
            OutRow(row, acc)[TotalColumn] == if |values| > 0 then Num(Sum(values)) else Blank
  {
    RowAssignmentFacts(row, cols, subjects, rt, parse, acc);
    var out := OutRow(row, acc);
    forall s | s in subjects && s in cols
      ensures (GeneratedName(s) in out <==> GeneratedName(s) in acc.cells) &&
              (GeneratedName(s) in out ==> out[GeneratedName(s)] == acc.cells[GeneratedName(s)])
    {
      GeneratedSetMember(subjects, cols, s);
      OutRowCellFor(row, acc, s);
    }
    GeneratedValuesLocal(out, acc.cells, cols, subjects);
  }

  /** In a finished row, an original column keeps its raw text when no generated column is named like it. */
  lemma OutRowOriginal(row: map<string, string>, cols: seq<string>, subjects: seq<string>,
                       rt: RuleTable, parse: string -> Option<real>, acc: RowAcc, c: string)
    requires forall c :: c in cols ==> c in row
    requires RowAssignment(row, cols, subjects, rt, parse) == Ok(acc)
    requires c in cols && c != TotalColumn
    requires forall s :: s in subjects ==> GeneratedName(s) != c
    ensures c in OutRow(row, acc) && OutRow(row, acc)[c] == Text(row[c])
  {
    RowAssignmentFacts(row, cols, subjects, rt, parse, acc);
    assert c !in acc.cells;
  }

  /** For a successful assignment, result row `i` is raw row `i` finished by its own assignment. */
  lemma OutputRow(raw: RawTable, rt: RuleTable, parse: string -> Option<real>, position: string, i: nat)
    requires WellFormed(raw)
    requires AssignedTable(raw, rt, parse, position).Ok? && i < |raw.rows|
    ensures Pass(raw, rt, parse).Ok? && |Pass(raw, rt, parse).value| == |raw.rows|
    ensures |AssignedTable(raw, rt, parse, position).value.rows| == |raw.rows|
    ensures AssignedTable(raw, rt, parse, position).value.rows[i] == OutRow(raw.rows[i], Pass(raw, rt, parse).value[i])
    ensures forall c :: c in raw.columns ==> c in raw.rows[i]
    ensures RowAssignment(raw.rows[i], raw.columns, Subjects(rt.columns), rt, parse) == Ok(Pass(raw, rt, parse).value[i])
  {
    AssignedShape(raw, rt, parse, position);
    PassRows(raw, rt, parse, i);
  }

  /**
   * Absence propagation (score_processor.py:83-87): when a present subject's
   * raw cell does not parse, its generated cell in that row is "".
   */
  lemma UnparseableCellIsBlank(raw: RawTable, rt: RuleTable, parse: string -> Option<real>, position: string, i: nat, s: string)
    requires WellFormed(raw)
    requires Pass(raw, rt, parse).Ok? && i < |raw.rows|
    requires Present(raw, rt, s) && s in raw.rows[i] && parse(raw.rows[i][s]).None?
    ensures var row := AssignedTable(raw, rt, parse, position).value.rows[i];
            GeneratedName(s) in row && row[GeneratedName(s)] == Blank
  {
    OutputRow(raw, rt, parse, position, i);
    OutRowGeneratedCell(raw.rows[i], raw.columns, Subjects(rt.columns), rt, parse, Pass(raw, rt, parse).value[i], s);
  }

  /**
   * No rules (score_processor.py:90-93): when a present subject's rule set is
   * empty after `dropna`, its generated cell is "" in every row.
   */
  lemma EmptyRuleSetIsBlank(raw: RawTable, rt: RuleTable, parse: string -> Option<real>, position: string, i: nat, s: string)
    requires WellFormed(raw)
    requires Pass(raw, rt, parse).Ok? && i < |raw.rows|
    requires Present(raw, rt, s) && SubjectRules(rt, s) == Some([])
    ensures var row := AssignedTable(raw, rt, parse, position).value.rows[i];
            GeneratedName(s) in row && row[GeneratedName(s)] == Blank
  {
    OutputRow(raw, rt, parse, position, i);
    OutRowGeneratedCell(raw.rows[i], raw.columns, Subjects(rt.columns), rt, parse, Pass(raw, rt, parse).value[i], s);
  }

  /**
   * Threshold assignment in the table (score_processor.py:82-97): for a raw
   * score `x` and the subject's rules, the generated cell holds a number
   * exactly when `x` reaches some rule, and that number is the assigned value
   * of a rule with the highest minimum `x` reaches; otherwise it is "".
   */
  lemma GeneratedCellIsBestMatch(raw: RawTable, rt: RuleTable, parse: string -> Option<real>, position: string,
                                 i: nat, s: string, x: real, rules: seq<Rule>)
    requires WellFormed(raw)
    requires Pass(raw, rt, parse).Ok? && i < |raw.rows|
    requires Present(raw, rt, s) && s in raw.rows[i] && parse(raw.rows[i][s]) == Some(x)
    requires SubjectRules(rt, s) == Some(rules)
    ensures var row := AssignedTable(raw, rt, parse, position).value.rows[i];
            && GeneratedName(s) in row
            && (row[GeneratedName(s)].Num? <==> exists rule :: rule in rules && Reaches(x, rule))
            && (row[GeneratedName(s)].Num? ==>
                  exists rule :: rule in rules && rule.assignedScore == row[GeneratedName(s)].value && IsBestReached(x, rule, rules))
            && (!row[GeneratedName(s)].Num? ==> row[GeneratedName(s)] == Blank)
  {
    OutputRow(raw, rt, parse, position, i);
    OutRowGeneratedCell(raw.rows[i], raw.columns, Subjects(rt.columns), rt, parse, Pass(raw, rt, parse).value[i], s);
    var row := AssignedTable(raw, rt, parse, position).value.rows[i];
    SubjectCellIsBestMatch(raw.rows[i][s], s, rt, parse, x, rules, row[GeneratedName(s)]);
  }

  /** The cell one raw score gets is a best-threshold match, or "" when no rule is reached. */
  lemma SubjectCellIsBestMatch(text: string, s: string, rt: RuleTable, parse: string -> Option<real>,
                               x: real, rules: seq<Rule>, c: Cell)
    requires parse(text) == Some(x) && SubjectRules(rt, s) == Some(rules)
    requires SubjectCell(text, s, rt, parse) == Ok(c)
    ensures c.Num? <==> exists rule :: rule in rules && Reaches(x, rule)
    ensures c.Num? ==> exists rule :: rule in rules && rule.assignedScore == c.value && IsBestReached(x, rule, rules)
    ensures !c.Num? ==> c == Blank
  {
    SingleScoreIsBestMatch(Some(x), rules);
  }

  /**
   * Row total (score_processor.py:72-75, 100-104, 107): `赋分总分` is the sum
   * of the non-empty generated values, one per occurrence of a present subject
   * in the subject list, when there is at least one, so a row whose values sum
   * to 0 reports 0; with none it is "".
   */
  lemma RowTotalIsSumOfGenerated(raw: RawTable, rt: RuleTable, parse: string -> Option<real>, position: string, i: nat)
    requires WellFormed(raw)
    requires AssignedTable(raw, rt, parse, position).Ok? && i < |raw.rows|
    ensures var row := AssignedTable(raw, rt, parse, position).value.rows[i];
            var values := GeneratedValues(row, raw.columns, Subjects(rt.columns));
            TotalColumn in row && row[TotalColumn] == if |values| > 0 then Num(Sum(values)) else Blank
  {
    OutputRow(raw, rt, parse, position, i);
    OutRowTotal(raw.rows[i], raw.columns, Subjects(rt.columns), rt, parse, Pass(raw, rt, parse).value[i]);
  }

  /**
   * Row order and count are kept, and every original cell keeps its text
   * (`df_original.copy()`, line 69), when no raw column is named like a
   * generated one.
   */
  lemma RowsPreserved(raw: RawTable, rt: RuleTable, parse: string -> Option<real>, position: string)
    requires WellFormed(raw) && NoCollisions(raw, rt)
    requires Pass(raw, rt, parse).Ok?
    ensures |AssignedTable(raw, rt, parse, position).value.rows| == |raw.rows|
    ensures forall i, c :: 0 <= i < |raw.rows| && c in raw.columns ==>
              c in raw.rows[i] && c in AssignedTable(raw, rt, parse, position).value.rows[i] &&
              AssignedTable(raw, rt, parse, position).value.rows[i][c] == Text(raw.rows[i][c])
  {
    AssignedShape(raw, rt, parse, position);
    forall i, c | 0 <= i < |raw.rows| && c in raw.columns
      ensures c in raw.rows[i] && c in AssignedTable(raw, rt, parse, position).value.rows[i] &&
              AssignedTable(raw, rt, parse, position).value.rows[i][c] == Text(raw.rows[i][c])
    {
      OutputRow(raw, rt, parse, position, i);
      OutRowOriginal(raw.rows[i], raw.columns, Subjects(rt.columns), rt, parse, Pass(raw, rt, parse).value[i], c);
    }
  }

  /**
   * Which generated columns exist (score_processor.py:67, 73, 77-79, 115,
   * 121): a configured subject's column `<subject>_赋分` is in the result
   * exactly when the subject is a raw column and there is at least one row;
   * every other result column is an original column or the total.
   */
  lemma GeneratedColumnsExist(raw: RawTable, rt: RuleTable, parse: string -> Option<real>, position: string)
    requires WellFormed(raw) && NoCollisions(raw, rt)
    requires AssignedTable(raw, rt, parse, position).Ok?
    ensures forall s :: s in Subjects(rt.columns) ==>
              (GeneratedName(s) in AssignedTable(raw, rt, parse, position).value.columns <==> |raw.rows| > 0 && s in raw.columns)
    ensures forall c :: c in AssignedTable(raw, rt, parse, position).value.columns ==>
              c in raw.columns || c == TotalColumn || (|raw.rows| > 0 && c in GeneratedSet(Subjects(rt.columns), raw.columns))
  {
    AssignedShape(raw, rt, parse, position);
    LayoutColumnSet(raw, rt, position);
    var cols := AssignedTable(raw, rt, parse, position).value.columns;
    assert forall c :: c in cols <==> c in Existing(raw, rt);
    forall s | s in Subjects(rt.columns)
      ensures GeneratedName(s) in Existing(raw, rt) <==> |raw.rows| > 0 && s in raw.columns
    {
      ExistingGeneratedNameFor(raw.columns, Subjects(rt.columns), |raw.rows| > 0, s);
    }
  }

  /**
   * The selection `df_result[new_col_order]` (lines 118, 123) loses no cell
   * and finds every column: each result row has a cell for exactly the
   * result's columns.
   */
  lemma ResultWellFormed(raw: RawTable, rt: RuleTable, parse: string -> Option<real>, position: string)
    requires WellFormed(raw)
    requires Pass(raw, rt, parse).Ok?
    ensures WellFormed(AssignedTable(raw, rt, parse, position).value)
  {
    var out := AssignedTable(raw, rt, parse, position).value;
    AssignedShape(raw, rt, parse, position);
    LayoutColumnSet(raw, rt, position);
    forall i | 0 <= i < |out.rows|
      ensures out.rows[i].Keys == set c | c in out.columns
    {
      OutputRow(raw, rt, parse, position, i);
      var acc := Pass(raw, rt, parse).value[i];
      RowAssignmentFacts(raw.rows[i], raw.columns, Subjects(rt.columns), rt, parse, acc);
      assert raw.rows[i].Keys == Elems(raw.columns);
      assert out.rows[i].Keys == raw.rows[i].Keys + acc.cells.Keys + {TotalColumn};
      assert Elems(out.columns) == Existing(raw, rt);
    }
  }

  /**
   * Layout equivalence (score_processor.py:107-123): both layouts fail alike
   * or succeed with the same rows, and then hold the same set of columns.
   */
  lemma LayoutsAgree(raw: RawTable, rt: RuleTable, parse: string -> Option<real>, position1: string, position2: string)
    requires WellFormed(raw)
    ensures AssignedTable(raw, rt, parse, position1).Ok? <==> AssignedTable(raw, rt, parse, position2).Ok?
    ensures AssignedTable(raw, rt, parse, position1).Err? ==>
              AssignedTable(raw, rt, parse, position1).error == AssignedTable(raw, rt, parse, position2).error
    ensures AssignedTable(raw, rt, parse, position1).Ok? ==>
              AssignedTable(raw, rt, parse, position1).value.rows == AssignedTable(raw, rt, parse, position2).value.rows &&
              Elems(AssignedTable(raw, rt, parse, position1).value.columns) == Elems(AssignedTable(raw, rt, parse, position2).value.columns)
  {
    if AssignedTable(raw, rt, parse, position1).Ok? {
      AssignedShape(raw, rt, parse, position1);
      AssignedShape(raw, rt, parse, position2);
      LayoutColumnSet(raw, rt, position1);
      LayoutColumnSet(raw, rt, position2);
    }
  }

  /** `Keep` distributes over concatenation. */
  lemma {:induction false} KeepAppend(a: seq<string>, b: seq<string>, keep: set<string>)
    ensures Keep(a + b, keep) == Keep(a, keep) + Keep(b, keep)
  {
    if b == [] {
      assert a + b == a;
    } else {
      var init := b[..|b| - 1];
      KeepAppend(a, init, keep);
      assert (a + b)[..|a + b| - 1] == a + init;
      assert (a + b)[|a + b| - 1] == b[|b| - 1];
    }
  }

  /** Keeping only the originals in one piece of the `after_subject` order leaves its original column. */
  lemma KeepPiece(c: string, subjects: seq<string>, existing: set<string>, originals: set<string>)
    requires c in originals
    requires c in subjects ==> GeneratedName(c) !in originals
    ensures Keep(AfterSubjectPiece(c, subjects, existing), originals) == [c]
  {
    var piece := AfterSubjectPiece(c, subjects, existing);
    assert Keep([c], originals) == Keep([], originals) + [c];
    if |piece| == 2 {
      assert piece[..1] == [c];
    }
  }

  /** Keeping only the originals in the `after_subject` order gives the original columns back. */
  lemma {:induction false} AfterSubjectKeepsOriginals(cs: seq<string>, subjects: seq<string>, existing: set<string>, originals: set<string>)
    requires forall c :: c in cs ==> c in originals
    requires forall c :: c in cs && c in subjects ==> GeneratedName(c) !in originals
    ensures Keep(AfterSubjectPrefix(cs, subjects, existing), originals) == cs
  {
    if cs != [] {
      var init := cs[..|cs| - 1];
      var c := cs[|cs| - 1];
      assert cs == init + [c];
      assert forall x :: x in init ==> x in cs;
      AfterSubjectKeepsOriginals(init, subjects, existing, originals);
      var before := AfterSubjectPrefix(init, subjects, existing);
      var piece := AfterSubjectPiece(c, subjects, existing);
      assert AfterSubjectPrefix(cs, subjects, existing) == before + piece;
      KeepAppend(before, piece, originals);
      assert c in cs;
      KeepPiece(c, subjects, existing, originals);
    }
  }

  /** In the `after_subject` order, an original subject column whose generated column exists is followed by it. */
  lemma {:induction false} AfterSubjectFollowedByGenerated(cs: seq<string>, subjects: seq<string>, existing: set<string>, originals: set<string>)
    requires forall c :: c in cs && c in subjects ==> GeneratedName(c) !in originals
    ensures var order := AfterSubjectPrefix(cs, subjects, existing);
            forall p :: 0 <= p < |order| && order[p] in originals && order[p] in subjects && GeneratedName(order[p]) in existing ==>
              p + 1 < |order| && order[p + 1] == GeneratedName(order[p])
  {
    if cs != [] {
      var init := cs[..|cs| - 1];
      var c := cs[|cs| - 1];
      assert forall x :: x in init ==> x in cs;
      AfterSubjectFollowedByGenerated(init, subjects, existing, originals);
      var before := AfterSubjectPrefix(init, subjects, existing);
      var piece := AfterSubjectPiece(c, subjects, existing);
      var order := AfterSubjectPrefix(cs, subjects, existing);
      assert order == before + piece;
      forall p | 0 <= p < |order| && order[p] in originals && order[p] in subjects && GeneratedName(order[p]) in existing
        ensures p + 1 < |order| && order[p + 1] == GeneratedName(order[p])
      {
        if p < |before| {
          assert order[p] == AfterSubjectPrefix(init, subjects, existing)[p];
          assert order[p + 1] == AfterSubjectPrefix(init, subjects, existing)[p + 1];
        } else if p == |before| {
          assert order[p] == c;
          assert piece == [c, GeneratedName(c)];
        }
      }
    }
  }

  /** In the `after_subject` order, every entry that is not an original follows the subject column it belongs to. */
  lemma {:induction false} AfterSubjectGeneratedFollows(cs: seq<string>, subjects: seq<string>, existing: set<string>, originals: set<string>)
    requires forall c :: c in cs ==> c in originals
    ensures var order := AfterSubjectPrefix(cs, subjects, existing);
            forall p :: 0 <= p < |order| && order[p] !in originals ==>
              0 < p && order[p - 1] in cs && order[p - 1] in subjects && order[p] == GeneratedName(order[p - 1])
  {
    if cs != [] {
      var init := cs[..|cs| - 1];
      var c := cs[|cs| - 1];
      assert forall x :: x in init ==> x in cs;
      AfterSubjectGeneratedFollows(init, subjects, existing, originals);
      var before := AfterSubjectPrefix(init, subjects, existing);
      var piece := AfterSubjectPiece(c, subjects, existing);
      var order := AfterSubjectPrefix(cs, subjects, existing);
      assert order == before + piece;
      forall p | 0 <= p < |order| && order[p] !in originals
        ensures 0 < p && order[p - 1] in cs && order[p - 1] in subjects && order[p] == GeneratedName(order[p - 1])
      {
        if p < |before| {
          assert order[p] == AfterSubjectPrefix(init, subjects, existing)[p];
          assert order[p - 1] == AfterSubjectPrefix(init, subjects, existing)[p - 1];
        } else if p == |before| + 1 {
          assert piece == [c, GeneratedName(c)];
          assert order[p - 1] == c;
        }
      }
    }
  }

  /** The `after_subject` layout for any subjects whose generated names are not raw columns. */
  lemma AfterSubjectLayoutFor(cols: seq<string>, subjects: seq<string>, hasRows: bool)
    requires TotalColumn !in cols
    requires forall s :: s in subjects ==> GeneratedName(s) !in cols
    ensures var order := ColumnOrder(cols, subjects, ExistingFor(cols, subjects, hasRows), "after_subject");
            && |order| > 0 && order[|order| - 1] == TotalColumn
            && Keep(order, Elems(cols)) == cols
            && (forall p :: 0 <= p < |order| - 1 && order[p] in cols && order[p] in subjects && hasRows ==>
                  order[p + 1] == GeneratedName(order[p]))
            && (forall p :: 0 <= p < |order| - 1 && order[p] !in cols ==>
                  0 < p && order[p - 1] in cols && order[p - 1] in subjects && order[p] == GeneratedName(order[p - 1]))
  {
    var ex := ExistingFor(cols, subjects, hasRows);
    var order := AfterSubjectPrefix(cols, subjects, ex);
    var full := ColumnOrder(cols, subjects, ex, "after_subject");
    assert full == order + [TotalColumn];
    AfterSubjectKeepsOriginals(cols, subjects, ex, Elems(cols));
    AfterSubjectFollowedByGenerated(cols, subjects, ex, Elems(cols));
    AfterSubjectGeneratedFollows(cols, subjects, ex, Elems(cols));
    KeepAppend(order, [TotalColumn], Elems(cols));
    assert Keep([TotalColumn], Elems(cols)) == Keep([], Elems(cols)) + [];
    forall p | 0 <= p < |full| - 1 && full[p] in cols && full[p] in subjects && hasRows
      ensures full[p + 1] == GeneratedName(full[p])
    {
      assert full[p] == order[p];
      ExistingGeneratedNameFor(cols, subjects, hasRows, full[p]);
    }
    forall p | 0 <= p < |full| - 1 && full[p] !in cols
      ensures 0 < p && full[p - 1] in cols && full[p - 1] in subjects && full[p] == GeneratedName(full[p - 1])
    {
      assert full[p] == order[p] && full[p - 1] == order[p - 1];
    }
  }

  /**
   * The `after_subject` layout (score_processor.py:110-118): keeping only
   * the original columns gives them back in their order; an original
   * subject column is immediately followed by its generated column when
   * there is a row; every other column but the last is the generated column
   * of the original subject column just before it; `赋分总分` is last.
   */
  lemma AfterSubjectLayout(raw: RawTable, rt: RuleTable, parse: string -> Option<real>)
    requires WellFormed(raw) && NoCollisions(raw, rt)
    requires AssignedTable(raw, rt, parse, "after_subject").Ok?
    ensures var cols := AssignedTable(raw, rt, parse, "after_subject").value.columns;
            && |cols| > 0 && cols[|cols| - 1] == TotalColumn
            && Keep(cols, Elems(raw.columns)) == raw.columns
            && (forall p :: 0 <= p < |cols| - 1 && Present(raw, rt, cols[p]) && |raw.rows| > 0 ==>
                  cols[p + 1] == GeneratedName(cols[p]))
            && (forall p :: 0 <= p < |cols| - 1 && cols[p] !in raw.columns ==>
                  0 < p && Present(raw, rt, cols[p - 1]) && cols[p] == GeneratedName(cols[p - 1]))
  {
    AssignedShape(raw, rt, parse, "after_subject");
    AfterSubjectLayoutFor(raw.columns, Subjects(rt.columns), |raw.rows| > 0);
  }

  /** Over subjects whose generated names are not raw columns, the existing generated columns are the present ones. */
  lemma {:induction false} ExistingGeneratedIsPresent(subs: seq<string>, cols: seq<string>, subjects: seq<string>, hasRows: bool)
    requires forall s :: s in subs ==> s in subjects
    requires forall s :: s in subjects ==> GeneratedName(s) !in cols
    ensures ExistingGenerated(subs, ExistingFor(cols, subjects, hasRows)) == if hasRows then PresentGenerated(subs, cols) else []
  {
    if subs != [] {
      var init := subs[..|subs| - 1];
      assert forall s :: s in init ==> s in subs;
      ExistingGeneratedIsPresent(init, cols, subjects, hasRows);
      ExistingGeneratedNameFor(cols, subjects, hasRows, subs[|subs| - 1]);
    }
  }

  /**
   * The `end` layout (score_processor.py:119-123): the original columns in
   * order, then the generated columns of the present subjects in subject
   * order (none when there is no row), then `赋分总分`.
   */
  lemma EndLayout(raw: RawTable, rt: RuleTable, parse: string -> Option<real>, position: string)
    requires WellFormed(raw) && NoCollisions(raw, rt) && position != "after_subject"
    requires AssignedTable(raw, rt, parse, position).Ok?
    ensures AssignedTable(raw, rt, parse, position).value.columns ==
              raw.columns + (if |raw.rows| > 0 then PresentGenerated(Subjects(rt.columns), raw.columns) else []) + [TotalColumn]
  {
    AssignedShape(raw, rt, parse, position);
    ExistingGeneratedIsPresent(Subjects(rt.columns), raw.columns, Subjects(rt.columns), |raw.rows| > 0);
  }
}
