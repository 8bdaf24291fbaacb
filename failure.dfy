/**
 * When `process_assignment` raises: the core itself raises the KeyError of
 * the rule lookup at score_processor.py:90, or the ValueError of the sort at
 * line 50 for a subject named `赋分值`, and it does so exactly for the rows
 * and subjects that reach one of them.
 */
module AssignerFailure {
  import opened Wrappers
  import opened Names
  import opened Assigner
  import opened AssignerProperties

  /**
   * Row `i` raises for subject `s`: `s` is a present subject, its raw cell
   * parses, and either the lookup of line 90 raises because the rule table
   * lacks `赋分值` or a column named exactly `s`, or `s` is `赋分值` itself
   * with a non-empty rule set, so that the sort of line 50 is reached with
   * an ambiguous label.
   */
  predicate RaisesAt(raw: RawTable, subjects: seq<string>, rt: RuleTable, parse: string -> Option<real>, i: int, s: string) {
    && 0 <= i < |raw.rows| && s in subjects && s in raw.columns && s in raw.rows[i]
    && parse(raw.rows[i][s]).Some?
    && (SubjectRules(rt, s).None? || (s == AssignedValueColumn && SubjectRules(rt, s).value != []))
  }

  /** A row's pass over the first `k` subjects fails with the error of a failing cell it has seen. */
  lemma {:induction false} RowPrefixError(row: map<string, string>, cols: seq<string>, subjects: seq<string>, k: nat,
                                          rt: RuleTable, parse: string -> Option<real>)
    requires k <= |subjects|
    requires forall c :: c in cols ==> c in row
    requires RowPrefix(row, cols, subjects, k, rt, parse).Err?
    ensures exists j :: 0 <= j < k && subjects[j] in cols &&
              SubjectCell(row[subjects[j]], subjects[j], rt, parse) == Err(RowPrefix(row, cols, subjects, k, rt, parse).error)
  {
    if RowPrefix(row, cols, subjects, k - 1, rt, parse).Err? {
      RowPrefixError(row, cols, subjects, k - 1, rt, parse);
    } else {
      assert SubjectCell(row[subjects[k - 1]], subjects[k - 1], rt, parse) == Err(RowPrefix(row, cols, subjects, k, rt, parse).error);
    }
  }

  /** The pass over the first `n` rows fails with the error of one of those rows. */
  lemma {:induction false} FirstPassError(raw: RawTable, subjects: seq<string>, n: nat, rt: RuleTable, parse: string -> Option<real>)
    requires WellFormed(raw) && n <= |raw.rows|
    requires FirstPass(raw, subjects, n, rt, parse).Err?
    ensures exists i :: 0 <= i < n &&
              RowAssignment(raw.rows[i], raw.columns, subjects, rt, parse) == Err(FirstPass(raw, subjects, n, rt, parse).error)
  {
    if FirstPass(raw, subjects, n - 1, rt, parse).Err? {
      FirstPassError(raw, subjects, n - 1, rt, parse);
    }
  }

  /**
   * One row fails exactly when some subject of it raises; the error names
   * such a subject, and it is the KeyError exactly when that subject's lookup
   * finds no column.
   */
  lemma RowFailsAt(raw: RawTable, subjects: seq<string>, rt: RuleTable, parse: string -> Option<real>, i: nat)
    requires WellFormed(raw) && i < |raw.rows|
    requires forall c :: c in raw.columns ==> c in raw.rows[i]
    ensures RowAssignment(raw.rows[i], raw.columns, subjects, rt, parse).Err? <==> exists s :: RaisesAt(raw, subjects, rt, parse, i, s)
    ensures RowAssignment(raw.rows[i], raw.columns, subjects, rt, parse).Err? ==>
              var e := RowAssignment(raw.rows[i], raw.columns, subjects, rt, parse).error;
              RaisesAt(raw, subjects, rt, parse, i, e.subject) && (e.MissingRuleColumn? <==> SubjectRules(rt, e.subject).None?)
  {
    var row := raw.rows[i];
    RowPrefixFailure(row, raw.columns, subjects, |subjects|, rt, parse);
    if RowAssignment(row, raw.columns, subjects, rt, parse).Err? {
      RowPrefixError(row, raw.columns, subjects, |subjects|, rt, parse);
      var j :| 0 <= j < |subjects| && subjects[j] in raw.columns &&
               SubjectCell(row[subjects[j]], subjects[j], rt, parse) == Err(RowAssignment(row, raw.columns, subjects, rt, parse).error);
      assert RaisesAt(raw, subjects, rt, parse, i, subjects[j]);
    }
  }

  /** The pass over all rows fails exactly when some row raises, and its error names a raising subject. */
  lemma PassFailsAt(raw: RawTable, subjects: seq<string>, rt: RuleTable, parse: string -> Option<real>)
    requires WellFormed(raw)
    ensures FirstPass(raw, subjects, |raw.rows|, rt, parse).Err? <==> exists i, s :: RaisesAt(raw, subjects, rt, parse, i, s)
    ensures FirstPass(raw, subjects, |raw.rows|, rt, parse).Err? ==>
              var e := FirstPass(raw, subjects, |raw.rows|, rt, parse).error;
              (exists i :: RaisesAt(raw, subjects, rt, parse, i, e.subject)) && (e.MissingRuleColumn? <==> SubjectRules(rt, e.subject).None?)
  {
    RowsCoverColumns(raw);
    FirstPassFailure(raw, subjects, |raw.rows|, rt, parse);
    var pass := FirstPass(raw, subjects, |raw.rows|, rt, parse);
    if pass.Err? {
      FirstPassError(raw, subjects, |raw.rows|, rt, parse);
      var i :| 0 <= i < |raw.rows| && RowAssignment(raw.rows[i], raw.columns, subjects, rt, parse) == Err(pass.error);
      RowFailsAt(raw, subjects, rt, parse, i);
    } else if exists i, s :: RaisesAt(raw, subjects, rt, parse, i, s) {
      var i, s :| RaisesAt(raw, subjects, rt, parse, i, s);
      RowFailsAt(raw, subjects, rt, parse, i);
    }
  }

  /**
   * `process_assignment` fails exactly when some row has a present subject
   * whose raw cell parses while the rule table lacks `赋分值` or a column named
   * exactly like the stripped subject (the KeyError of line 90), or while the
   * subject is `赋分值` itself with a non-empty rule set (the ValueError of
   * line 50); the error names such a subject and tells the two apart.
   */
  lemma FailsExactlyWhenSubjectRaises(raw: RawTable, rt: RuleTable, parse: string -> Option<real>, position: string)
    requires WellFormed(raw)
    ensures AssignedTable(raw, rt, parse, position).Err? <==>
              exists i, s :: RaisesAt(raw, Subjects(rt.columns), rt, parse, i, s)
    ensures AssignedTable(raw, rt, parse, position).Err? ==>
              var e := AssignedTable(raw, rt, parse, position).error;
              (exists i :: RaisesAt(raw, Subjects(rt.columns), rt, parse, i, e.subject)) && (e.MissingRuleColumn? <==> SubjectRules(rt, e.subject).None?)
  {
    AssignedFailure(raw, rt, parse, position);
    PassFailsAt(raw, Subjects(rt.columns), rt, parse);
  }

  /** The assignment fails exactly when its pass over the rows fails, with the same error. */
  lemma AssignedFailure(raw: RawTable, rt: RuleTable, parse: string -> Option<real>, position: string)
    requires WellFormed(raw)
    ensures AssignedTable(raw, rt, parse, position).Err? <==> Pass(raw, rt, parse).Err?
    ensures Pass(raw, rt, parse).Err? ==> AssignedTable(raw, rt, parse, position).error == Pass(raw, rt, parse).error
  {
  }
}
