/**
 * Edge cases of `process_assignment`: an empty score table, a rule-table
 * header whose surrounding whitespace makes its subject unfindable, a
 * subject named like the assigned-value column, and a subject listed twice.
 */
module AssignerEdges {
  import opened Wrappers
  import opened Matcher
  import opened Names
  import opened Assigner
  import opened AssignerProperties

  /** Without generated columns to place, the `after_subject` order is the original order. */
  lemma {:induction false} AfterSubjectWithoutGenerated(cols: seq<string>, subjects: seq<string>, existing: set<string>)
    requires forall c :: c in cols && c in subjects ==> GeneratedName(c) !in existing
    ensures AfterSubjectPrefix(cols, subjects, existing) == cols
  {
    if cols != [] {
      var init := cols[..|cols| - 1];
      assert forall c :: c in init ==> c in cols;
      AfterSubjectWithoutGenerated(init, subjects, existing);
      assert cols == init + [cols[|cols| - 1]];
    }
  }

  /** With no row, either layout is the original columns followed by the total. */
  lemma EmptyLayoutFor(cols: seq<string>, subjects: seq<string>, position: string)
    requires forall s :: s in subjects ==> GeneratedName(s) !in cols
    ensures ColumnOrder(cols, subjects, CurrentColumns(cols, {}), position) == cols + [TotalColumn]
  {
    var existing := CurrentColumns(cols, {});
    forall c | c in cols && c in subjects
      ensures GeneratedName(c) !in existing
    {
      GeneratedNameIsNotTotal(c);
    }
    AfterSubjectWithoutGenerated(cols, subjects, existing);
    ExistingGeneratedIsPresent(subjects, cols, subjects, false);
  }

  /**
   * An empty score table (no row): nothing is looked up, so nothing fails;
   * no generated column is created, and under either layout the result is
   * the original columns followed by an empty `赋分总分`.
   */
  lemma EmptyInput(raw: RawTable, rt: RuleTable, parse: string -> Option<real>, position: string)
    requires WellFormed(raw) && NoCollisions(raw, rt) && |raw.rows| == 0
    ensures AssignedTable(raw, rt, parse, position) == Ok(Table(raw.columns + [TotalColumn], []))
  {
    var subjects := Subjects(rt.columns);
    assert FirstPass(raw, subjects, |raw.rows|, rt, parse) == Ok([]);
    assert CreatedColumns([]) == {};
    EmptyLayoutFor(raw.columns, subjects, position);
    assert AssignedTable(raw, rt, parse, position).Ok?;
    AssignedShape(raw, rt, parse, position);
    assert Existing(raw, rt) == CurrentColumns(raw.columns, {});
  }

  /**
   * A rule-table header written with surrounding spaces (" 数学 ") yields the
   * subject "数学", but the lookup of line 90 uses the stripped name, which is
   * not a rule-table column: such a subject always raises once reached.
   */
  lemma PaddedHeaderIsNotFound(rt: RuleTable)
    requires rt.columns == [AssignedValueColumn, " 数学 "]
    ensures Subjects(rt.columns) == ["数学"]
    ensures SubjectRules(rt, "数学") == None
  {
    StrippedPaddedName();
    assert rt.columns[1..] == [" 数学 "];
    PaddedNameIsNotAColumn(rt.columns);
  }

  /** Neither rule-table header is the stripped name. */
  lemma PaddedNameIsNotAColumn(columns: seq<string>)
    requires columns == [AssignedValueColumn, " 数学 "]
    ensures "数学" !in columns
  {
    assert columns[0] != "数学" && columns[1] != "数学";
  }

  /** The stripped names of the single header " 数学 ". */
  lemma StrippedPaddedName()
    ensures StrippedNames([" 数学 "]) == ["数学"]
  {
    var headers: seq<string> := [" 数学 "];
    StripPaddedName();
    assert headers[1..] == [];
  }

  /** `str.strip()` removes the single spaces around " 数学 ". */
  lemma StripPaddedName()
    ensures Strip(" 数学 ") == "数学"
  {
    StripLeftPadded();
    StripRightPadded();
  }

  /** The leading space of " 数学 " is the only leading whitespace. */
  lemma StripLeftPadded()
    ensures StripLeft(" 数学 ") == "数学 "
  {
    var header := " 数学 ";
    assert IsSpace(header[0]) && header[1..] == "数学 ";
    assert !IsSpace("数学 "[0]);
  }

  /** The trailing space of "数学 " is the only trailing whitespace. */
  lemma StripRightPadded()
    ensures StripRight("数学 ") == "数学"
  {
    var name := "数学 ";
    assert IsSpace(name[2]) && name[..2] == "数学";
    assert !IsSpace("数学"[1]);
  }

  /**
   * A rule-table header `赋分值` after the first makes `赋分值` a subject. When it
   * is also a raw column whose cell parses, line 90 selects the label `赋分值`
   * twice, and the sort of line 50 raises on the ambiguous label.
   */
  lemma AssignedValueSubjectRaises(raw: RawTable, rt: RuleTable, parse: string -> Option<real>, position: string)
    requires raw == Table([AssignedValueColumn], [map[AssignedValueColumn := "85"]])
    requires rt == Table(["score", AssignedValueColumn], [map["score" := Some(1.0), AssignedValueColumn := Some(60.0)]])
    requires parse("85") == Some(85.0)
    ensures WellFormed(raw)
    ensures AssignedTable(raw, rt, parse, position) == Err(DuplicateRuleColumn(AssignedValueColumn))
  {
    var headers: seq<string> := [AssignedValueColumn];
    StrippedAssignedValueColumn();
    assert rt.columns[1..] == headers;
    assert Subjects(rt.columns) == headers;
    assert RulePairs(rt.rows, AssignedValueColumn) == [Rule(60.0, 60.0)];
    var row := raw.rows[0];
    assert raw.rows[0].Keys == set c | c in raw.columns;
    assert SubjectCell(row[AssignedValueColumn], AssignedValueColumn, rt, parse) == Err(DuplicateRuleColumn(AssignedValueColumn));
    assert RowPrefix(row, raw.columns, headers, 1, rt, parse) == Err(DuplicateRuleColumn(AssignedValueColumn));
    assert FirstPass(raw, headers, 1, rt, parse) == Err(DuplicateRuleColumn(AssignedValueColumn));
  }

  /** The stripped names of the single header `赋分值`. */
  lemma StrippedAssignedValueColumn()
    ensures StrippedNames([AssignedValueColumn]) == [AssignedValueColumn]
  {
    var headers: seq<string> := [AssignedValueColumn];
    UnpaddedAssignedValueColumn();
    assert headers[1..] == [];
  }

  /** `赋分值` has no surrounding whitespace, so stripping keeps it. */
  lemma UnpaddedAssignedValueColumn()
    ensures Strip(AssignedValueColumn) == AssignedValueColumn
  {
    var name := AssignedValueColumn;
    assert !IsSpace(name[0]) && !IsSpace(name[|name| - 1]);
  }

  /**
   * Two rule-table headers that strip to the same name list that subject
   * twice (line 67), so the loop of line 77 visits it twice: its one
   * generated cell is counted twice in `赋分总分` (lines 101-102), and the `end`
   * layout lists that cell's column twice (line 121).
   */
  lemma RepeatedSubjectCountsTwice(raw: RawTable, rt: RuleTable, parse: string -> Option<real>)
    requires raw == Table(["数学"], [map["数学" := "85"]])
    requires rt == Table([AssignedValueColumn, "数学", " 数学"],
                         [map[AssignedValueColumn := Some(80.0), "数学" := Some(60.0), " 数学" := Some(60.0)]])
    requires parse("85") == Some(85.0)
    ensures WellFormed(raw)
    ensures AssignedTable(raw, rt, parse, "end") ==
              Ok(Table(["数学", GeneratedName("数学"), GeneratedName("数学"), TotalColumn],
                       [map["数学" := Text("85"), GeneratedName("数学") := Num(80.0), TotalColumn := Num(160.0)]]))
  {
    var g := GeneratedName("数学");
    var accs := [RowAcc(map[g := Num(80.0)], 160.0, 2)];
    RepeatedSubjects(rt);
    RepeatedSubjectPass(raw, rt, parse);
    CreatedColumnsStep([], accs[0]);
    assert CreatedColumns([]) == {};
    assert accs[0].cells.Keys == {g};
    assert [] + [accs[0]] == accs;
    var existing := CurrentColumns(raw.columns, CreatedColumns(accs));
    RepeatedLayout(existing);
    var out := map["数学" := Text("85"), g := Num(80.0), TotalColumn := Num(160.0)];
    RepeatedOutRow(raw.rows[0], accs[0]);
    var rows := seq(|accs|, i requires 0 <= i < |accs| => OutRow(raw.rows[i], accs[i]));
    assert rows == [out];
    assert AssignedTable(raw, rt, parse, "end") == Ok(Table(ColumnOrder(raw.columns, Subjects(rt.columns), existing, "end"), rows));
  }

  /** The finished row holds the one generated cell and the doubled total. */
  lemma RepeatedOutRow(row: map<string, string>, acc: RowAcc)
    requires row == map["数学" := "85"] && acc == RowAcc(map[GeneratedName("数学") := Num(80.0)], 160.0, 2)
    ensures OutRow(row, acc) == map["数学" := Text("85"), GeneratedName("数学") := Num(80.0), TotalColumn := Num(160.0)]
  {
    GeneratedNameIsNotTotal("数学");
    assert ToCells(row) == map["数学" := Text("85")];
  }

  /** The `end` layout lists the generated column once per occurrence of the subject. */
  lemma RepeatedLayout(existing: set<string>)
    requires GeneratedName("数学") in existing
    ensures ColumnOrder(["数学"], ["数学", "数学"], existing, "end") ==
              ["数学", GeneratedName("数学"), GeneratedName("数学"), TotalColumn]
  {
    var subjects: seq<string> := ["数学", "数学"];
    assert subjects[..1] == ["数学"] && subjects[..1][..0] == [];
    assert ExistingGenerated(subjects[..1], existing) == [GeneratedName("数学")];
  }

  /** The headers "数学" and " 数学" both give the subject `数学`. */
  lemma RepeatedSubjects(rt: RuleTable)
    requires rt.columns == [AssignedValueColumn, "数学", " 数学"]
    ensures Subjects(rt.columns) == ["数学", "数学"]
  {
    StrippedRepeatedName();
    assert rt.columns[1..] == ["数学", " 数学"];
  }

  /** The pass over the single row. */
  lemma RepeatedSubjectPass(raw: RawTable, rt: RuleTable, parse: string -> Option<real>)
    requires raw == Table(["数学"], [map["数学" := "85"]])
    requires rt == Table([AssignedValueColumn, "数学", " 数学"],
                         [map[AssignedValueColumn := Some(80.0), "数学" := Some(60.0), " 数学" := Some(60.0)]])
    requires parse("85") == Some(85.0)
    ensures WellFormed(raw)
    ensures FirstPass(raw, ["数学", "数学"], 1, rt, parse) == Ok([RowAcc(map[GeneratedName("数学") := Num(80.0)], 160.0, 2)])
  {
    assert raw.rows[0].Keys == set c | c in raw.columns;
    var acc := RowAcc(map[GeneratedName("数学") := Num(80.0)], 160.0, 2);
    RepeatedSubjectRow(raw.rows[0], rt, parse);
    assert RowAssignment(raw.rows[0], raw.columns, ["数学", "数学"], rt, parse) == Ok(acc);
    assert FirstPass(raw, ["数学", "数学"], 0, rt, parse) == Ok([]);
    assert [] + [acc] == [acc];
  }

  /** Visiting the subject `数学` twice writes its cell twice and counts its value twice. */
  lemma RepeatedSubjectRow(row: map<string, string>, rt: RuleTable, parse: string -> Option<real>)
    requires row == map["数学" := "85"]
    requires rt == Table([AssignedValueColumn, "数学", " 数学"],
                         [map[AssignedValueColumn := Some(80.0), "数学" := Some(60.0), " 数学" := Some(60.0)]])
    requires parse("85") == Some(85.0)
    ensures RowAssignment(row, ["数学"], ["数学", "数学"], rt, parse) ==
              Ok(RowAcc(map[GeneratedName("数学") := Num(80.0)], 160.0, 2))
  {
    var g := GeneratedName("数学");
    var cols: seq<string> := ["数学"];
    var subjects: seq<string> := ["数学", "数学"];
    var rules := [Rule(80.0, 60.0)];
    assert RulePairs(rt.rows, "数学") == rules;
    assert SingleScore(Some(85.0), rules) == Some(80.0);
    assert SubjectCell(row["数学"], "数学", rt, parse) == Ok(Num(80.0));
    var once := RowAcc(map[g := Num(80.0)], 80.0, 1);
    RowPrefixStep(row, cols, subjects, 1, rt, parse);
    SubjectStepWrites(RowAcc(map[], 0.0, 0), row, cols, "数学", rt, parse, Num(80.0));
    assert RowPrefix(row, cols, subjects, 1, rt, parse) == Ok(once);
    RowPrefixStep(row, cols, subjects, 2, rt, parse);
    SubjectStepWrites(once, row, cols, "数学", rt, parse, Num(80.0));
    assert once.cells[g := Num(80.0)] == once.cells;
  }

  /** The stripped names of the headers "数学" and " 数学". */
  lemma StrippedRepeatedName()
    ensures StrippedNames(["数学", " 数学"]) == ["数学", "数学"]
  {
    var headers: seq<string> := ["数学", " 数学"];
    var name := "数学";
    assert !IsSpace(name[0]) && !IsSpace(name[1]);
    assert Strip(name) == name;
    var padded := " 数学";
    assert IsSpace(padded[0]) && padded[1..] == name;
    assert StripLeft(padded) == name;
    assert headers[1..] == [padded];
    assert headers[1..][1..] == [];
  }
}
