/** Worked examples: the layouts shown in the upload help, run through the
    model. */
module Scenarios {
  import opened Text
  import opened Canonical
  import opened Transform
  import opened Export

  lemma MeltOneRowTwoColumns(row: seq<Cell>, sid: nat, cols: seq<string>, a: nat, b: nat)
    requires a < |cols| && b < |cols|
    ensures Melt([row], sid, cols, [a, b]) == [Melted(row, sid, cols, a), Melted(row, sid, cols, b)]
  {
    assert [a, b][..1] == [a];
    assert [a][..0] == [];
  }

  lemma DropNullBoth(x: AnswerRow, y: AnswerRow)
    requires x.studentAnswer.Some? && y.studentAnswer.Some?
    ensures DropNull([x, y]) == [x, y]
  {
    assert [y][1..] == [];
    assert DropNull([y]) == [y] + DropNull([]) == [y];
    assert [x, y][1..] == [y];
    assert DropNull([x, y]) == [x] + DropNull([y]);
  }

  lemma DropNullSecond(x: AnswerRow, y: AnswerRow)
    requires x.studentAnswer.Some? && y.studentAnswer.None?
    ensures DropNull([x, y]) == [x]
  {
    assert [y][1..] == [];
    assert DropNull([y]) == [] + DropNull([]) == [];
    assert [x, y][1..] == [y];
    assert DropNull([x, y]) == [x] + DropNull([y]);
  }

  lemma SortTwoOrdered(x: AnswerRow, y: AnswerRow)
    requires RowLe(x, y)
    ensures SortRows([x, y]) == [x, y]
  {
    assert [x, y][1..] == [y];
    assert [y][1..] == [];
  }

  lemma WideHeaderTrimmed()
    ensures StripAll(["studentID", "Q1", "Q2"]) == ["studentID", "Q1", "Q2"]
  {
    StripAllClean(["studentID", "Q1", "Q2"]);
  }

  lemma WideHeaderLayout()
    ensures !IsLong(["studentID", "Q1", "Q2"]) && !MeltFails(["studentID", "Q1", "Q2"])
    ensures IndexOf(["studentID", "Q1", "Q2"], "studentID") == 0
  {
  }

  /** With `studentID` first, the questions are all the other columns. */
  lemma QuestionColumnsAfterFirst(cols: seq<string>, n: nat)
    requires 1 <= n <= |cols| && cols[0] == "studentID"
    requires forall j :: 1 <= j < |cols| ==> cols[j] != "studentID"
    ensures QuestionColumnsUpTo(cols, n) == seq(n - 1, k => k + 1)
  {
    if n > 1 { QuestionColumnsAfterFirst(cols, n - 1); }
  }

  lemma WideHeaderQuestions()
    ensures QuestionColumns(["studentID", "Q1", "Q2"]) == [1, 2]
  {
    QuestionColumnsAfterFirst(["studentID", "Q1", "Q2"], 3);
  }

  lemma MeltTwoRowsOneColumn(row1: seq<Cell>, row2: seq<Cell>, sid: nat, cols: seq<string>, j: nat)
    requires j < |cols|
    ensures Melt([row1, row2], sid, cols, [j]) == [Melted(row1, sid, cols, j), Melted(row2, sid, cols, j)]
  {
    assert [j][..0] == [];
    assert [row1, row2][1..] == [row2];
    assert [row2][1..] == [];
    assert MeltColumn([row2], sid, cols, j) == [Melted(row2, sid, cols, j)] + MeltColumn([], sid, cols, j);
    assert MeltColumn([row1, row2], sid, cols, j) == [Melted(row1, sid, cols, j)] + MeltColumn([row2], sid, cols, j);
  }

  lemma OneColumnHeaderTrimmed()
    ensures StripAll(["studentID", "Q1"]) == ["studentID", "Q1"]
  {
    StripAllClean(["studentID", "Q1"]);
  }

  lemma OneColumnHeaderLayout()
    ensures !IsLong(["studentID", "Q1"]) && !MeltFails(["studentID", "Q1"])
    ensures IndexOf(["studentID", "Q1"], "studentID") == 0
  {
  }

  lemma OneColumnHeaderQuestions()
    ensures QuestionColumns(["studentID", "Q1"]) == [1]
  {
    QuestionColumnsAfterFirst(["studentID", "Q1"], 2);
  }

  /** Only missing answers are dropped: a blank answer stays, a missing one
      goes. */
  lemma BlankKeptMissingDropped()
    ensures Normalize(Table(["studentID", "Q1"], [[Some("001"), Some(" ")], [Some("002"), None]]))
      == Some([AnswerRow(Some("001"), Some("Q1"), Some(" "))])
  {
    OneColumnHeaderTrimmed();
    OneColumnHeaderLayout();
    BlankExampleRows();
  }

  lemma BlankExampleRows()
    ensures Wide(["studentID", "Q1"], [[Some("001"), Some(" ")], [Some("002"), None]])
      == [AnswerRow(Some("001"), Some("Q1"), Some(" "))]
  {
    var cols := ["studentID", "Q1"];
    var row1, row2 := [Some("001"), Some(" ")], [Some("002"), None];
    OneColumnHeaderLayout();
    OneColumnHeaderQuestions();
    MeltTwoRowsOneColumn(row1, row2, 0, cols, 1);
    var r1 := AnswerRow(Some("001"), Some("Q1"), Some(" "));
    var r2 := AnswerRow(Some("002"), Some("Q1"), None);
    assert Melted(row1, 0, cols, 1) == r1;
    assert Melted(row2, 0, cols, 1) == r2;
    DropNullSecond(r1, r2);
    assert [r1][1..] == [];
    assert SortRows([r1]) == [r1];
  }

  /** Wide layout `studentID, Q1, Q2` with one student: one row per question,
      `Q1` before `Q2`. */
  lemma WideExample()
    ensures Normalize(Table(["studentID", "Q1", "Q2"], [[Some("001"), Some("Bangkok"), Some("Control center")]]))
      == Some([AnswerRow(Some("001"), Some("Q1"), Some("Bangkok")),
               AnswerRow(Some("001"), Some("Q2"), Some("Control center"))])
  {
    WideHeaderTrimmed();
    WideHeaderLayout();
    WideExampleRows();
  }

  lemma WideExampleRows()
    ensures Wide(["studentID", "Q1", "Q2"], [[Some("001"), Some("Bangkok"), Some("Control center")]])
      == [AnswerRow(Some("001"), Some("Q1"), Some("Bangkok")),
          AnswerRow(Some("001"), Some("Q2"), Some("Control center"))]
  {
    var cols := ["studentID", "Q1", "Q2"];
    var row := [Some("001"), Some("Bangkok"), Some("Control center")];
    WideHeaderLayout();
    WideHeaderQuestions();
    MeltOneRowTwoColumns(row, 0, cols, 1, 2);
    var r1 := AnswerRow(Some("001"), Some("Q1"), Some("Bangkok"));
    var r2 := AnswerRow(Some("001"), Some("Q2"), Some("Control center"));
    assert Melted(row, 0, cols, 1) == r1;
    assert Melted(row, 0, cols, 2) == r2;
    assert StrLe("Q1", "Q2");
    DropNullBoth(r1, r2);
    SortTwoOrdered(r1, r2);
  }

  /** A form export whose identifier column reads `Student ID` has no
      `studentID` column, so it is not recognised. */
  lemma FormExportNotRecognised(rows: seq<seq<Cell>>)
    ensures Normalize(Table(["Timestamp", "Score", "Student ID", "What is the capital...", "What is the function..."], rows)) == None
  {
    CleanHeaderWithoutStudentID(["Timestamp", "Score", "Student ID", "What is the capital...", "What is the function..."], rows);
  }

  /** A header with an answer column but no question column is not long, and
      melting it would add a second `studentAnswer` column, which pandas
      refuses: the outcome is `None` whatever the rows. */
  lemma AnswerColumnWithoutQuestion(rows: seq<seq<Cell>>)
    ensures Normalize(Table(["studentID", "studentAnswer", "Q1"], rows)) == None
  {
    AnswerHeaderTrimmed();
    AnswerHeaderHasAnswer();
    AnswerHeaderLacksQuestion();
    AnswerWithoutQuestionRejected(Table(["studentID", "studentAnswer", "Q1"], rows));
  }

  lemma AnswerHeaderTrimmed()
    ensures StripAll(["studentID", "studentAnswer", "Q1"]) == ["studentID", "studentAnswer", "Q1"]
  {
    StripAllClean(["studentID", "studentAnswer", "Q1"]);
  }

  lemma AnswerHeaderHasAnswer()
    ensures "studentAnswer" in ["studentID", "studentAnswer", "Q1"]
  {
    var cols := ["studentID", "studentAnswer", "Q1"];
    assert cols[1] == "studentAnswer";
  }

  lemma AnswerHeaderLacksQuestion()
    ensures "questionID" !in ["studentID", "studentAnswer", "Q1"]
  {
  }

  lemma DuplicateHeaderLayout()
    ensures !IsLong(["studentID", "studentID", "Q1"])
    ensures DuplicateStudentID(["studentID", "studentID", "Q1"])
  {
    var cols := ["studentID", "studentID", "Q1"];
    assert cols[0] == "studentID" && cols[1] == "studentID";
  }

  lemma DuplicateHeaderClean()
    ensures StripAll(["studentID", "studentID", "Q1"]) == ["studentID", "studentID", "Q1"]
  {
    var cols := ["studentID", "studentID", "Q1"];
    assert Stripped(cols[0]) && Stripped(cols[1]) && Stripped(cols[2]);
    StripAllClean(cols);
  }

  lemma DuplicateHeaderRejected(rows: seq<seq<Cell>>)
    ensures Normalize(Table(["studentID", "studentID", "Q1"], rows)) == None
  {
    DuplicateHeaderClean();
    DuplicateHeaderLayout();
    NormalizeNone(Table(["studentID", "studentID", "Q1"], rows));
  }

  lemma DuplicateHeaderPadded(pad: string)
    requires AllSpace(pad)
    ensures ["studentID", "studentID", "Q1"][1 := [] + Strip("studentID") + pad] == ["studentID", "studentID" + pad, "Q1"]
  {
    StripClean("studentID");
    assert [] + "studentID" + pad == "studentID" + pad;
  }

  /** A second `studentID` column, written with trailing whitespace that
      the header cleaning removes, makes the melt fail: `None`. */
  lemma DuplicateStudentIDHeader(pad: string, rows: seq<seq<Cell>>)
    requires AllSpace(pad)
    ensures Normalize(Table(["studentID", "studentID" + pad, "Q1"], rows)) == None
  {
    var clean := Table(["studentID", "studentID", "Q1"], rows);
    DuplicateHeaderRejected(rows);
    PaddedHeader(clean, 1, [], pad);
    DuplicateHeaderPadded(pad);
  }

  /** Grading one long row whose question is in the key, with an oracle that
      rates the pair 0.9: full credit, not flagged. */
  lemma GradingExample(sim: Oracle, round2: real -> real)
    requires sim("Bangkok", "Bangkok is the capital of Thailand.") == 0.9
    ensures GradeRow(GradingRow("001", "Q1", "Bangkok"),
                     KeyDict([KeyEntry("Q1", "Bangkok is the capital of Thailand.")]), sim, round2)
      == GradedRecord("001", "Q1", "Bangkok", "Bangkok is the capital of Thailand.", round2(0.9), 1.0, false)
  {
    KeyDictLastWins([KeyEntry("Q1", "Bangkok is the capital of Thailand.")], 0);
  }
}
