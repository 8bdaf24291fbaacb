# Score assignment (赋分) — a verified Dafny model

This project models the core of a small score-assignment tool (`score_processor.py`).
The tool takes two tables:

- a raw score table, with one row per student and one column per subject;
- a rule table. Its column `赋分值` holds assigned values. Each further column is a subject, and holds the minimum raw score for each assigned value.

For every row and for every subject that is also a raw column, the tool:

1. converts the raw cell to a number;
2. picks the rule with the highest minimum that the score reaches;
3. writes the rule's assigned value into `<subject>_赋分`, or `""` when no rule applies;
4. adds the assigned values into the row total `赋分总分`, which is `""` when nothing was assigned.

Finally it lays the columns out in one of two ways:

- `after_subject`: each generated column goes right after its subject column;
- anything else: all generated columns go at the end, before the total.

The model has two layers, like the source:

- `matcher.dfy` (module `Matcher`) models `calculate_single_score`:
  - `SingleScore` is the specification: a sort by descending minimum (`SortByMinDesc`, an insertion sort), then the first rule reached (`FirstReached`).
  - `CalculateSingleScore` is the early-return scan, proved equal to it.
  - The lemmas show that the result is a rule with the largest reached minimum. They also show that no other descending order can change the result unless equal minimums carry different assigned values.
- `assigner.dfy` (module `Assigner`) models `process_assignment`:
  - The specification functions are left folds over the subjects (`RowPrefix`) and over the rows (`FirstPass`), plus the two column orders (`ColumnOrder`).
  - The methods `AssignRow`, `AssignRows`, `LayoutColumns` and `ProcessAssignment` are the source's loops. They carry their invariants and are proved to compute `AssignedTable`.
- `names.dfy` (module `Names`) models:
  - Python `str.strip()`, using the exact Unicode whitespace set of `str.isspace`;
  - the subject list of line 67;
  - the generated column names.
- `properties.dfy`, `failure.dfy` and `edges.dfy` state and prove the source's promises about `AssignedTable`:
  - cell contents and row totals;
  - which columns exist;
  - both layouts;
  - exactly when the operation fails;
  - the empty table.
- `wrappers.dfy` holds the `Option`/`Result` types.

Inputs are modelled as follows:

- The raw table is `Table<string>`: columns in order, and one map from column to cell per row. `load_tables` reads it as strings, with blanks filled as `""`.
- The rule table is `Table<Option<real>>`. `None` stands for a cell that `pd.to_numeric(errors='coerce')` made NaN.
- Python `float()` on a raw cell is the parameter `parse: string -> Option<real>`. `None` stands for a cell that `float()` rejects.
- The source raises in two places, each reached only for a present subject whose raw cell parses:
  - a `KeyError` at line 90, when the rule table has no `赋分值` column or no column named exactly like the stripped subject. It is modelled as `Err(MissingRuleColumn(subject))`;
  - a `ValueError` at line 50, when the subject is itself named `赋分值` and its rule set is not empty: line 90 then selects the label `赋分值` twice and the sort cannot tell the columns apart. It is modelled as `Err(DuplicateRuleColumn(subject))`.
- `insert_position` has no default in the model; the source's default is `"after_subject"`.

## Model

| member | source | states |
|---|---|---|
| Matcher.SortByMinDesc | score_processor.py:50 | Definition: an insertion sort of the rules by descending minimum; characterised by `SortByMinDescSorts`. |
| Matcher.SingleScore | score_processor.py:39-56 | Definition: an absent score gives nothing, otherwise the first rule reached in `SortByMinDesc` order; characterised by `SingleScoreIsBestMatch`. |
| Matcher.InsertPermutes | score_processor.py:50 | Inserting a rule into a list gives a permutation of the rule plus the list. |
| Matcher.InsertSorts | score_processor.py:50 | Inserting a rule into a list sorted by descending minimum keeps it sorted; the new head is the rule or the old head. |
| Matcher.SortByMinDescSorts | score_processor.py:50 | `sort_values('min', ascending=False)`: the result is sorted by descending minimum and is a permutation of the input rules. |
| Matcher.FirstReached | score_processor.py:51-56 | The scan returns the assigned value of a rule reached by the score with no reached rule before it. It returns nothing exactly when no rule in the sequence is reached. |
| Matcher.FirstReachedIsBest | score_processor.py:50-55 | On a descending rule list, the rule the scan picks has the largest minimum among all reached rules. |
| Matcher.SingleScoreIsBestMatch | score_processor.py:39-56 | An absent score gives no value. A present score that reaches no rule (including the empty rule list) gives no value. Otherwise the result is the assigned value of some rule that is reached and has the maximal reached minimum. |
| Matcher.CalculateSingleScore | score_processor.py:39-56 | The early-return loop computes `SingleScore`. It returns a value iff the score is present and reaches some rule. |
| Matcher.AnyDescendingOrderAgrees | score_processor.py:50-56 | The unstable sort cannot change the result when rules with equal minimums carry equal assigned values: any descending permutation of the rules gives `SingleScore`'s value. |
| Matcher.BandExample | score_processor.py:46-56 | Bands (80 from 60, 100 from 90) given in ascending order: 85 gets 80, 95 and 90 (the threshold is inclusive) get 100, 50 gets nothing, an absent score gets nothing. |
| Names.StripLeft | score_processor.py:67 | Definition: drops leading whitespace one character at a time; characterised by `StripLeftCuts`. |
| Names.StripRight | score_processor.py:67 | Definition: drops trailing whitespace one character at a time; characterised by `StripRightCuts`. |
| Names.Strip | score_processor.py:67 | Definition: `StripRight` after `StripLeft`; characterised by `StripTrims`. |
| Names.StrippedNames | score_processor.py:67 | Definition: the non-empty strips of the headers, in order; characterised by `StrippedNamesMembers`. |
| Names.Subjects | score_processor.py:67 | Definition: `StrippedNames` of the headers after the first; characterised by `SubjectsMembers`. |
| Names.GeneratedName | score_processor.py:86 | Definition: `<subject>_赋分`; characterised by `GeneratedNameInjective` and `GeneratedNameIsNotTotal`. |
| Names.StripLeftCuts | score_processor.py:67 | `StripLeft` removes exactly the leading run of whitespace: a suffix of the input, everything cut off is whitespace, and the result does not start with whitespace. |
| Names.StripRightCuts | score_processor.py:67 | `StripRight` removes exactly the trailing run of whitespace: a prefix of the input, everything cut off is whitespace, and the result does not end with whitespace. |
| Names.StripTrims | score_processor.py:67 | `str.strip()`: the result is a contiguous part of the input, only whitespace is cut off on either side, and it neither starts nor ends with whitespace. |
| Names.StrippedNamesMembers | score_processor.py:67 | The list comprehension over the headers: a name is listed iff it is the non-empty strip of some header; no more names than headers. |
| Names.SubjectsMembers | score_processor.py:67 | A name is a subject iff it is non-empty and is the strip of a rule-table header other than the first. |
| Names.GeneratedNameInjective | score_processor.py:86 | Different subjects get different columns `<subject>_赋分`. |
| Names.GeneratedNameIsNotTotal | score_processor.py:97-107 | No generated column is named `赋分总分`. |
| Assigner.RulePairs | score_processor.py:90 | Definition: the defined (`赋分值`, subject) pairs of the rule-table rows, in row order; characterised by `RulePairsMembers`. |
| Assigner.SubjectRules | score_processor.py:90 | Definition: the subject's rules, or nothing when `赋分值` or the subject is not a rule-table column (the KeyError); used by `RaisesAt` and `SubjectCellIsBestMatch`. |
| Assigner.SubjectCell | score_processor.py:82-97 | Definition: `""` for an unparseable cell or an empty rule set, the KeyError or the ValueError of a `赋分值` subject, otherwise the matcher's value or `""`; characterised by `SubjectCellIsBestMatch` and `AssignerFailure.RowFailsAt`. |
| Assigner.SubjectStep | score_processor.py:77-102 | Definition: one subject's iteration: skip an absent subject, write its cell, count and add a number; characterised by `AssignerProperties.RowPrefixCells` and `RowPrefixTotal`. |
| Assigner.RowPrefix | score_processor.py:77-102 | Definition: the left fold of `SubjectStep` over the first `k` subjects, stopping at the first error; characterised by `RowPrefixCells`, `RowPrefixTotal`, `RowPrefixFailure` and `AssignerFailure.RowPrefixError`. |
| Assigner.RowAssignment | score_processor.py:74-104 | Definition: `RowPrefix` over all subjects; computed by `AssignRow`. |
| Assigner.TotalCell | score_processor.py:104 | Definition: the total when the count is positive, `""` otherwise; characterised by `RowTotalIsSumOfGenerated`. |
| Assigner.OutRow | score_processor.py:97-107 | Definition: the raw cells, the generated cells over them, then `赋分总分`; characterised by `AssignedShape`, `RowsPreserved` and `ResultWellFormed`. |
| Assigner.CreatedColumns | score_processor.py:86-97 | Definition: every generated column some row wrote; characterised by `CreatedColumnsAre` and `GeneratedColumnsExist`. |
| Assigner.AfterSubjectPrefix | score_processor.py:113-116 | Definition: each original column followed by its generated column when that exists; characterised by `AfterSubjectKeepsOriginals`, `AfterSubjectFollowedByGenerated` and `AfterSubjectGeneratedFollows`. |
| Assigner.ExistingGenerated | score_processor.py:121 | Definition: the existing generated columns of the subjects, in subject order; characterised by `EndLayout`. |
| Assigner.ColumnOrder | score_processor.py:110-123 | Definition: the `after_subject` order or the end order, then `赋分总分`; built by `LayoutColumns`, characterised by `LayoutColumnSet`, `AfterSubjectLayout` and `EndLayout`. |
| Assigner.AssignedTable | score_processor.py:58-125 | Definition: the first pass, then `OutRow` per row under `ColumnOrder`, or the first error; computed by `ProcessAssignment`, characterised by the `AssignerProperties` and `AssignerFailure` lemmas. |
| Assigner.RulePairsMembers | score_processor.py:90 | `df_score[['赋分值', subject]].dropna()`: a rule is in the list iff some rule-table row has both cells defined with those values. |
| Assigner.FirstPass | score_processor.py:72-104 | A successful pass over the first `n` rows yields one row result per row. |
| Assigner.RowPrefixFailureSticks | score_processor.py:50-96 | Once a row's pass raises (at line 90 or, through line 96, at line 50), no later subject changes the outcome. |
| Assigner.FirstPassFailureSticks | score_processor.py:73-104 | Once a row raises, the whole operation fails with that error. |
| Assigner.AssignRow | score_processor.py:74-104 | The subject loop computes exactly `RowAssignment`, including the accumulators and the error. It skips absent subjects, writes `""` for unparseable cells and empty rule sets, and writes the matcher's value or `""` otherwise. |
| Assigner.AssignRows | score_processor.py:72-104 | The row loop fails iff the specified pass fails, with the same error. Otherwise each row is its raw cells under its generated cells, its total is `TotalCell` of the row's accumulators, and the created columns are the union of the generated columns. |
| Assigner.LayoutColumns | score_processor.py:110-123 | The `append` loops build exactly `ColumnOrder` for the given `insert_position`. |
| Assigner.ProcessAssignment | score_processor.py:58-125 | The whole operation computes `AssignedTable`, which the lemmas below characterise. |
| AssignerProperties.RowPrefixCells | score_processor.py:77-97 | After the first `k` subjects, a generated cell exists exactly for the subjects seen that are raw columns, and it holds `SubjectCell` of that subject's raw cell. |
| AssignerProperties.RowPrefixFailure | score_processor.py:77-93 | A row's pass fails iff a subject seen that is a raw column has a failing cell. |
| AssignerProperties.RowPrefixTotal | score_processor.py:74-102 | `assigned_count` and `total_assigned` are the count and the left-to-right sum of the non-empty generated values, one per occurrence of a present subject in the subject list. |
| AssignerProperties.FirstPassRows | score_processor.py:73-104 | Each row of a successful pass is that row's own assignment; rows do not influence each other. |
| AssignerProperties.FirstPassFailure | score_processor.py:73-104 | The pass fails iff some row fails. |
| AssignerProperties.CreatedColumnsAre | score_processor.py:86-97 | When every row writes the same generated columns, the created columns are those, or none when there is no row. |
| AssignerProperties.AssignedShape | score_processor.py:58-125 | A successful result has one row per raw row, in order; row `i` is raw row `i` under its generated cells and total; the columns are `ColumnOrder` over the columns the result actually has. |
| AssignerProperties.UnparseableCellIsBlank | score_processor.py:83-87 | When a present subject's raw cell does not parse, its generated cell is `""` (and so adds nothing to the total). |
| AssignerProperties.EmptyRuleSetIsBlank | score_processor.py:90-93 | When a present subject's rule set is empty after `dropna`, its generated cell is `""` in every row. |
| AssignerProperties.SubjectCellIsBestMatch | score_processor.py:82-97 | The cell for a parsed score holds a number iff the score reaches some rule; the number is the assigned value of a best reached rule; otherwise it is `""`. |
| AssignerProperties.GeneratedCellIsBestMatch | score_processor.py:82-97 | The same property, stated for the cell in the result table. |
| AssignerProperties.RowTotalIsSumOfGenerated | score_processor.py:72-107 | `赋分总分` is the sum of the non-empty generated values, one per occurrence of a present subject in the subject list, when there is one (so a sum of 0 reports 0), and `""` when there is none. |
| AssignerProperties.RowsPreserved | score_processor.py:68-69 | Row count and order are kept, and every original cell keeps its text. |
| AssignerProperties.GeneratedColumnsExist | score_processor.py:67-121 | `<subject>_赋分` is a result column iff the subject is a raw column and there is a row. Every other column is an original column or the total. |
| AssignerProperties.ResultWellFormed | score_processor.py:118-123 | Every result row has a cell for exactly the result's columns. |
| AssignerProperties.LayoutsAgree | score_processor.py:107-123 | Two positions fail alike with the same error, or succeed with the same rows and the same set of columns. |
| AssignerProperties.LayoutColumnSet | score_processor.py:107-123 | Either layout lists exactly the columns of `df_result`: originals, created generated columns, total. |
| AssignerProperties.AfterSubjectKeepsOriginals | score_processor.py:113-116 | Keeping only the original columns of the `after_subject` order gives the original columns back, in order. |
| AssignerProperties.AfterSubjectFollowedByGenerated | score_processor.py:113-116 | An original subject column whose generated column exists is immediately followed by it. |
| AssignerProperties.AfterSubjectGeneratedFollows | score_processor.py:113-116 | Every non-original entry is the generated column of the subject column right before it. |
| AssignerProperties.AfterSubjectLayout | score_processor.py:110-118 | The `after_subject` result: the originals in order; each present subject followed by its generated column when there is a row; every other column the generated column of the subject before it; `赋分总分` last. |
| AssignerProperties.EndLayout | score_processor.py:119-123 | Any other position: the original columns, then the generated columns of the present subjects in subject order (none without rows), then `赋分总分`. |
| AssignerFailure.RowPrefixError | score_processor.py:89-90 | A failing row fails with the error of a failing cell it has seen. |
| AssignerFailure.FirstPassError | score_processor.py:73-104 | A failing pass fails with the error of one of its rows. |
| AssignerFailure.RowFailsAt | score_processor.py:77-97 | A row fails iff some present subject with a parseable cell raises at line 90 or line 50; the error names such a subject and is the KeyError exactly when its lookup finds no column. |
| AssignerFailure.PassFailsAt | score_processor.py:73-97 | The same, over all rows. |
| AssignerFailure.AssignedFailure | score_processor.py:58-107 | The operation fails iff its row pass fails, with the same error; layout never fails. |
| AssignerFailure.FailsExactlyWhenSubjectRaises | score_processor.py:58-125 | The operation raises iff some row has a present subject whose raw cell parses while the rule table lacks `赋分值` or a column named exactly like the stripped subject (KeyError), or while the subject is `赋分值` with a non-empty rule set (ValueError); the error names such a subject and is the KeyError exactly when its lookup finds no column. |
| AssignerEdges.AfterSubjectWithoutGenerated | score_processor.py:113-116 | With no generated column to place, the `after_subject` order is the original order. |
| AssignerEdges.EmptyLayoutFor | score_processor.py:110-123 | With no row, either layout is the original columns followed by the total. |
| AssignerEdges.EmptyInput | score_processor.py:67-125 | An empty score table never fails and gives the original columns plus an empty `赋分总分` under either layout. |
| AssignerEdges.PaddedHeaderIsNotFound | score_processor.py:67-90 | A rule-table header `" 数学 "` yields the subject `数学`, whose rule lookup then raises because it uses the stripped name. |
| AssignerEdges.AssignedValueSubjectRaises | score_processor.py:50-96 | A rule header `赋分值` after the first, with a raw column `赋分值` whose cell `85` parses and one defined rule, makes the operation raise the ValueError of the duplicated label (the pair selected at line 90 sorted at line 50). |
| AssignerEdges.RepeatedSubjectCountsTwice | score_processor.py:67-121 | Rule headers `数学` and ` 数学` list the subject `数学` twice: with one rule (80 from 60) and a raw cell `85`, the `end` result has the columns `数学`, `数学_赋分`, `数学_赋分`, `赋分总分` and the row `数学_赋分 = 80`, `赋分总分 = 160`. |

## Left out

- `load_tables` (file reading, extension dispatch, `to_numeric` coercion), `save_to_local` and `save_to_bytes` (Excel serialisation, filesystem): I/O. The model takes the already-read tables as input.
- `warnings.filterwarnings`: it has no effect on the computed table.
- Python `float()`: this is the parameter `parse`. The model does not include IEEE rounding of the additions in `赋分总分`; values are exact reals. It also does not model `inf` scores.
- A raw cell that `float()` turns into NaN is modelled as unparseable (`parse` gives `None`), so its generated cell is `""`, as in the source. The source, however, still performs the rule lookup of line 90 for such a cell. When that lookup raises, the source fails and the model does not.
- Matcher.SortByMinDescSorts: the model fixes one descending order (an insertion sort). `sort_values` is not stable, so which of two equal-minimum rules wins is left open. `AnyDescendingOrderAgrees` shows the choice is irrelevant when tied rules assign the same value.
- pandas index mechanics: the model collects each row's generated cells and writes them over the row. It does not model `.loc` writes, columns created by them with NaN in other rows, dtype changes, `index.map`, or duplicate index labels.
- Column-name collisions: the functions and methods model them as the source behaves. `AssignerProperties.RowsPreserved`, `GeneratedColumnsExist`, `AfterSubjectLayout`, `EndLayout` and `AssignerEdges.EmptyInput` assume that no raw column is named `赋分总分` or `<subject>_赋分`.
- Repeated column names within one table (pandas renames or duplicates them) are not modelled. A name is a column or it is not.
- A subject listed twice (two rule headers that strip to the same name) is processed twice, as in the source: its one generated cell is counted twice in `赋分总分`, and the `end` layout lists its column twice (`AssignerEdges.RepeatedSubjectCountsTwice`). Both entries of that label in the result read the same cell, as `df_result[new_col_order]` repeats the column.
