/** The response-table normalizer `transform_quiz_to_answer_format`: it
    recognises an already-long table, melts a wide table keyed by
    `studentID`, or gives up. */
module Transform {
  import opened Text
  import opened Canonical

  /** A table as read from CSV: its header and its rows of cells. */
  datatype Table = Table(columns: seq<string>, rows: seq<seq<Cell>>)

  /** The cell of `row` in column `j`; a row shorter than the header reads as
      missing values there, as `read_csv` pads it with NaN. */
  function CellAt(row: seq<Cell>, j: nat): Cell {
    if j < |row| then row[j] else None
  }

  /** The header after `df.columns.str.strip()`. */
  function StripAll(cols: seq<string>): seq<string> {
    seq(|cols|, j requires 0 <= j < |cols| => Strip(cols[j]))
  }

  /** The position of the first column called `name`. */
  function IndexOf(cols: seq<string>, name: string): (j: nat)
    requires name in cols
    ensures j < |cols| && cols[j] == name
    ensures forall k :: 0 <= k < j ==> cols[k] != name
  {
    if cols[0] == name then 0 else 1 + IndexOf(cols[1..], name)
  }

  /** The header holds all three canonical columns. */
  predicate IsLong(cols: seq<string>) {
    "studentID" in cols && "questionID" in cols && "studentAnswer" in cols
  }

  /** `df[['studentID', 'questionID', 'studentAnswer']]`. */
  function Project(cols: seq<string>, rows: seq<seq<Cell>>): seq<AnswerRow>
    requires IsLong(cols)
  {
    var s, q, a := IndexOf(cols, "studentID"), IndexOf(cols, "questionID"), IndexOf(cols, "studentAnswer");
    seq(|rows|, i requires 0 <= i < |rows| => AnswerRow(CellAt(rows[i], s), CellAt(rows[i], q), CellAt(rows[i], a)))
  }

  /** Positions, among the first `n`, of the columns other than `studentID`. */
  function QuestionColumnsUpTo(cols: seq<string>, n: nat): seq<nat>
    requires n <= |cols|
  {
    if n == 0 then []
    else QuestionColumnsUpTo(cols, n - 1) + (if cols[n - 1] != "studentID" then [n - 1] else [])
  }

  /** The first `n` columns' question positions are below `n`, are not
      `studentID`, and increase. */
  lemma {:induction false} QuestionColumnsUpToSound(cols: seq<string>, n: nat)
    requires n <= |cols|
    ensures forall k :: 0 <= k < |QuestionColumnsUpTo(cols, n)| ==>
      QuestionColumnsUpTo(cols, n)[k] < n && cols[QuestionColumnsUpTo(cols, n)[k]] != "studentID"
    ensures forall a, b :: 0 <= a < b < |QuestionColumnsUpTo(cols, n)| ==>
      QuestionColumnsUpTo(cols, n)[a] < QuestionColumnsUpTo(cols, n)[b]
  {
    if n > 0 {
      QuestionColumnsUpToSound(cols, n - 1);
      var front := QuestionColumnsUpTo(cols, n - 1);
      var last := if cols[n - 1] != "studentID" then [n - 1] else [];
      var qs := front + last;
      assert QuestionColumnsUpTo(cols, n) == qs;
      forall k | 0 <= k < |qs| ensures qs[k] < n && cols[qs[k]] != "studentID" {
        if k >= |front| { assert qs[k] == n - 1; }
      }
      forall a, b | 0 <= a < b < |qs| ensures qs[a] < qs[b] {
        if b >= |front| { assert qs[b] == n - 1; }
      }
    }
  }

  /** Every one of the first `n` columns other than `studentID` is listed. */
  lemma {:induction false} QuestionColumnsUpToComplete(cols: seq<string>, n: nat, j: nat)
    requires j < n <= |cols| && cols[j] != "studentID"
    ensures j in QuestionColumnsUpTo(cols, n)
  {
    var front := QuestionColumnsUpTo(cols, n - 1);
    var last := if cols[n - 1] != "studentID" then [n - 1] else [];
    assert QuestionColumnsUpTo(cols, n) == front + last;
    if j < n - 1 {
      QuestionColumnsUpToComplete(cols, n - 1, j);
    } else {
      assert last == [j];
    }
  }

  /** `[col for col in df.columns if col != 'studentID']`, as positions: every
      other column, left to right. */
  function QuestionColumns(cols: seq<string>): (qs: seq<nat>)
    ensures forall k :: 0 <= k < |qs| ==> qs[k] < |cols| && cols[qs[k]] != "studentID"
    ensures forall j :: 0 <= j < |cols| && cols[j] != "studentID" ==> j in qs
    ensures forall a, b :: 0 <= a < b < |qs| ==> qs[a] < qs[b]
  {
    QuestionColumnsUpToSound(cols, |cols|);
    forall j | 0 <= j < |cols| && cols[j] != "studentID" ensures j in QuestionColumnsUpTo(cols, |cols|) {
      QuestionColumnsUpToComplete(cols, |cols|, j);
    }
    QuestionColumnsUpTo(cols, |cols|)
  }

  predicate ValidColumns(cols: seq<string>, qs: seq<nat>) {
    forall k :: 0 <= k < |qs| ==> qs[k] < |cols|
  }

  /** The long row that `pd.melt` makes of `row`'s cell in question column `j`. */
  function Melted(row: seq<Cell>, sid: nat, cols: seq<string>, j: nat): AnswerRow
    requires j < |cols|
  {
    AnswerRow(CellAt(row, sid), Some(cols[j]), CellAt(row, j))
  }

  /** The block `pd.melt` produces for one value column: one row per input row. */
  function MeltColumn(rows: seq<seq<Cell>>, sid: nat, cols: seq<string>, j: nat): (r: seq<AnswerRow>)
    requires j < |cols|
    ensures |r| == |rows|
  {
    if rows == [] then []
    else [Melted(rows[0], sid, cols, j)] + MeltColumn(rows[1..], sid, cols, j)
  }

  /** `pd.melt(df, id_vars=['studentID'], value_vars=question_cols, ...)`:
      the value columns' blocks one after the other. */
  function Melt(rows: seq<seq<Cell>>, sid: nat, cols: seq<string>, qs: seq<nat>): (r: seq<AnswerRow>)
    requires ValidColumns(cols, qs)
    ensures |r| == |rows| * |qs|
  {
    if qs == [] then []
    else
      var n := |qs|;
      assert |rows| * n == |rows| * (n - 1) + |rows|;
      Melt(rows, sid, cols, qs[..n - 1]) + MeltColumn(rows, sid, cols, qs[n - 1])
  }

  /** `dropna(subset=['studentAnswer'])`. */
  function DropNull(rs: seq<AnswerRow>): seq<AnswerRow> {
    if rs == [] then []
    else (if rs[0].studentAnswer.Some? then [rs[0]] else []) + DropNull(rs[1..])
  }

  /** The number of rows whose answer is missing. */
  function CountNull(rs: seq<AnswerRow>): nat {
    if rs == [] then 0
    else (if rs[0].studentAnswer.None? then 1 else 0) + CountNull(rs[1..])
  }

  /** The number of missing cells of column `j`. */
  function NullsInColumn(rows: seq<seq<Cell>>, j: nat): nat {
    if rows == [] then 0
    else (if CellAt(rows[0], j).None? then 1 else 0) + NullsInColumn(rows[1..], j)
  }

  /** The number of missing cells over the question columns `qs`. */
  function NullCells(rows: seq<seq<Cell>>, qs: seq<nat>): nat {
    if qs == [] then 0
    else NullCells(rows, qs[..|qs| - 1]) + NullsInColumn(rows, qs[|qs| - 1])
  }

  /** `studentID` names more than one column. */
  predicate DuplicateStudentID(cols: seq<string>) {
    exists i, j :: 0 <= i < j < |cols| && cols[i] == "studentID" && cols[j] == "studentID"
  }

  /** The header on which the wide branch's `pd.melt` raises, so that the
      catch-all handler returns `None`: pandas 2 refuses a `value_name`
      (`studentAnswer`) that is already a column, and popping a duplicated
      id column (`studentID`) yields a frame where a column is expected. */
  predicate MeltFails(cols: seq<string>) {
    "studentAnswer" in cols || DuplicateStudentID(cols)
  }

  /** The wide branch: melt, drop missing answers, sort. */
  function Wide(cols: seq<string>, rows: seq<seq<Cell>>): seq<AnswerRow>
    requires "studentID" in cols
  {
    var qs := QuestionColumns(cols);
    SortRows(DropNull(Melt(rows, IndexOf(cols, "studentID"), cols, qs)))
  }

  /** `transform_quiz_to_answer_format` on a table already read: `None` when
      no layout is recognised or when the melt raises. */
  function Normalize(t: Table): Option<seq<AnswerRow>> {
    var cols := StripAll(t.columns);
    if IsLong(cols) then Some(Project(cols, t.rows))
    else if "studentID" in cols && !MeltFails(cols) then Some(Wide(cols, t.rows))
    else None
  }

  // ---------------------------------------------------------------------------
  // Melt, drop and count

  lemma {:induction false} MeltColumnAt(rows: seq<seq<Cell>>, sid: nat, cols: seq<string>, j: nat, i: nat)
    requires j < |cols| && i < |rows|
    ensures MeltColumn(rows, sid, cols, j)[i] == Melted(rows[i], sid, cols, j)
  {
    if i > 0 { MeltColumnAt(rows[1..], sid, cols, j, i - 1); }
  }

  lemma MulMonotone(a: nat, b: nat, c: nat)
    requires a <= b
    ensures a * c <= b * c
  {
  }

  /** The melt is column-major: block `k` holds question column `qs[k]` for
      every input row, in input order. */
  lemma {:induction false} MeltAt(rows: seq<seq<Cell>>, sid: nat, cols: seq<string>, qs: seq<nat>, k: nat, i: nat)
    requires ValidColumns(cols, qs) && k < |qs| && i < |rows|
    ensures k * |rows| + i < |Melt(rows, sid, cols, qs)|
    ensures Melt(rows, sid, cols, qs)[k * |rows| + i] == Melted(rows[i], sid, cols, qs[k])
  {
    var n, w := |qs|, |rows|;
    var front := Melt(rows, sid, cols, qs[..n - 1]);
    var last := MeltColumn(rows, sid, cols, qs[n - 1]);
    assert Melt(rows, sid, cols, qs) == front + last;
    assert |front| == w * (n - 1);
    MulMonotone(k + 1, n, w);
    assert (k + 1) * w == k * w + w;
    assert n * w == (n - 1) * w + w;
    if k < n - 1 {
      MeltAt(rows, sid, cols, qs[..n - 1], k, i);
      MulMonotone(k + 1, n - 1, w);
    } else {
      MeltColumnAt(rows, sid, cols, qs[k], i);
    }
  }

  /** A position in `n` blocks of `w` is a block and an offset in it. */
  lemma BlockOf(p: nat, w: nat, n: nat) returns (k: nat, i: nat)
    requires p < w * n
    ensures k < n && i < w && p == k * w + i
  {
    k, i := p / w, p % w;
    if k >= n { MulMonotone(n, k, w); }
  }

  lemma MeltSound(rows: seq<seq<Cell>>, sid: nat, cols: seq<string>, qs: seq<nat>, r: AnswerRow)
      returns (i: nat, k: nat)
    requires ValidColumns(cols, qs) && r in Melt(rows, sid, cols, qs)
    ensures i < |rows| && k < |qs| && r == Melted(rows[i], sid, cols, qs[k])
  {
    var m := Melt(rows, sid, cols, qs);
    var p :| 0 <= p < |m| && m[p] == r;
    k, i := BlockOf(p, |rows|, |qs|);
    MeltAt(rows, sid, cols, qs, k, i);
  }

  lemma MeltComplete(rows: seq<seq<Cell>>, sid: nat, cols: seq<string>, qs: seq<nat>, k: nat, i: nat)
    requires ValidColumns(cols, qs) && k < |qs| && i < |rows|
    ensures Melted(rows[i], sid, cols, qs[k]) in Melt(rows, sid, cols, qs)
  {
    var p := MeltIndex(rows, sid, cols, qs, k, i);
  }

  lemma MeltIndex(rows: seq<seq<Cell>>, sid: nat, cols: seq<string>, qs: seq<nat>, k: nat, i: nat)
      returns (p: nat)
    requires ValidColumns(cols, qs) && k < |qs| && i < |rows|
    ensures p < |Melt(rows, sid, cols, qs)| && Melt(rows, sid, cols, qs)[p] == Melted(rows[i], sid, cols, qs[k])
  {
    MeltAt(rows, sid, cols, qs, k, i);
    p := k * |rows| + i;
  }

  /** Every melted row comes from one input row and one question column, and
      every such pair gives a melted row. */
  lemma MeltMembers(rows: seq<seq<Cell>>, sid: nat, cols: seq<string>, qs: seq<nat>, r: AnswerRow)
    requires ValidColumns(cols, qs)
    ensures r in Melt(rows, sid, cols, qs) <==>
      exists i, k :: 0 <= i < |rows| && 0 <= k < |qs| && r == Melted(rows[i], sid, cols, qs[k])
  {
    if r in Melt(rows, sid, cols, qs) {
      var i, k := MeltSound(rows, sid, cols, qs, r);
    }
    forall i, k | 0 <= i < |rows| && 0 <= k < |qs|
      ensures Melted(rows[i], sid, cols, qs[k]) in Melt(rows, sid, cols, qs)
    {
      MeltComplete(rows, sid, cols, qs, k, i);
    }
  }

  lemma {:induction false} DropNullMembers(rs: seq<AnswerRow>, r: AnswerRow)
    ensures r in DropNull(rs) <==> r in rs && r.studentAnswer.Some?
  {
    if rs != [] {
      DropNullMembers(rs[1..], r);
      assert rs == [rs[0]] + rs[1..];
    }
  }

  /** Dropping removes exactly the rows whose answer is missing. */
  lemma {:induction false} DropNullCount(rs: seq<AnswerRow>)
    ensures |DropNull(rs)| + CountNull(rs) == |rs|
  {
    if rs != [] { DropNullCount(rs[1..]); }
  }

  lemma {:induction false} CountNullAppend(a: seq<AnswerRow>, b: seq<AnswerRow>)
    ensures CountNull(a + b) == CountNull(a) + CountNull(b)
  {
    if a == [] {
      assert a + b == b;
    } else {
      assert (a + b)[1..] == a[1..] + b;
      CountNullAppend(a[1..], b);
    }
  }

  lemma {:induction false} CountNullMeltColumn(rows: seq<seq<Cell>>, sid: nat, cols: seq<string>, j: nat)
    requires j < |cols|
    ensures CountNull(MeltColumn(rows, sid, cols, j)) == NullsInColumn(rows, j)
  {
    if rows != [] { CountNullMeltColumn(rows[1..], sid, cols, j); }
  }

  /** The missing answers of the melt are the missing cells of the question
      columns, one for one. */
  lemma {:induction false} CountNullMelt(rows: seq<seq<Cell>>, sid: nat, cols: seq<string>, qs: seq<nat>)
    requires ValidColumns(cols, qs)
    ensures CountNull(Melt(rows, sid, cols, qs)) == NullCells(rows, qs)
  {
    if qs != [] {
      var n := |qs|;
      CountNullMelt(rows, sid, cols, qs[..n - 1]);
      CountNullAppend(Melt(rows, sid, cols, qs[..n - 1]), MeltColumn(rows, sid, cols, qs[n - 1]));
      CountNullMeltColumn(rows, sid, cols, qs[n - 1]);
    }
  }

  // ---------------------------------------------------------------------------
  // The three outcomes

  /** Long layout: when all three canonical columns are present (even though
      `studentID` also is), the result is those three columns of every input
      row, in input order, with nothing sorted or dropped. */
  lemma NormalizeLong(t: Table)
    requires IsLong(StripAll(t.columns))
    ensures Normalize(t).Some?
    ensures |Normalize(t).value| == |t.rows|
    ensures forall i :: 0 <= i < |t.rows| ==>
      var cols := StripAll(t.columns);
      Normalize(t).value[i] == AnswerRow(CellAt(t.rows[i], IndexOf(cols, "studentID")),
                                         CellAt(t.rows[i], IndexOf(cols, "questionID")),
                                         CellAt(t.rows[i], IndexOf(cols, "studentAnswer")))
  {
  }

  /** Failure: the result is `None` exactly when no trimmed column is called
      `studentID`, or when the table is not long and the melt raises: an
      answer column without a question column, or `studentID` twice. */
  lemma NormalizeNone(t: Table)
    ensures var cols := StripAll(t.columns);
      Normalize(t).None? <==>
        "studentID" !in cols
        || ("studentAnswer" in cols && "questionID" !in cols)
        || (DuplicateStudentID(cols) && !IsLong(cols))
  {
  }

  /** Wide layout (a melt that does not raise), order: the output is sorted by `(studentID, questionID)`,
      and rows sharing both keep the melt's order (column-major), as pandas'
      multi-key sort is stable. */
  lemma NormalizeWideSorted(t: Table, sid: Cell, qid: Cell)
    requires !IsLong(StripAll(t.columns)) && "studentID" in StripAll(t.columns) && !MeltFails(StripAll(t.columns))
    ensures Normalize(t).Some?
    ensures Sorted(Normalize(t).value)
    ensures var cols := StripAll(t.columns);
      WithKey(Normalize(t).value, sid, qid)
      == WithKey(DropNull(Melt(t.rows, IndexOf(cols, "studentID"), cols, QuestionColumns(cols))), sid, qid)
  {
    var cols := StripAll(t.columns);
    var kept := DropNull(Melt(t.rows, IndexOf(cols, "studentID"), cols, QuestionColumns(cols)));
    SortRowsSorted(kept);
    SortRowsStable(kept, sid, qid);
  }

  /** A non-missing answer in question column `j` of input row `i` is `r`. */
  ghost predicate AnsweredAs(rows: seq<seq<Cell>>, cols: seq<string>, sid: nat, r: AnswerRow) {
    exists i, j :: 0 <= i < |rows| && 0 <= j < |cols| && cols[j] != "studentID"
      && CellAt(rows[i], j).Some? && r == Melted(rows[i], sid, cols, j)
  }

  lemma WideMembers(cols: seq<string>, rows: seq<seq<Cell>>, r: AnswerRow)
    requires "studentID" in cols
    ensures r in Wide(cols, rows) <==> AnsweredAs(rows, cols, IndexOf(cols, "studentID"), r)
  {
    var sid := IndexOf(cols, "studentID");
    var qs := QuestionColumns(cols);
    var m := Melt(rows, sid, cols, qs);
    var kept := DropNull(m);
    SortRowsSorted(kept);
    assert r in Wide(cols, rows) <==> r in multiset(kept);
    DropNullMembers(m, r);
    MeltMembers(rows, sid, cols, qs, r);
    if r in kept {
      var i, k :| 0 <= i < |rows| && 0 <= k < |qs| && r == Melted(rows[i], sid, cols, qs[k]);
      var j := qs[k];
      assert 0 <= i < |rows| && 0 <= j < |cols| && cols[j] != "studentID"
        && CellAt(rows[i], j).Some? && r == Melted(rows[i], sid, cols, j);
    }
    if AnsweredAs(rows, cols, sid, r) {
      var i, j :| 0 <= i < |rows| && 0 <= j < |cols| && cols[j] != "studentID"
        && CellAt(rows[i], j).Some? && r == Melted(rows[i], sid, cols, j);
      var k :| 0 <= k < |qs| && qs[k] == j;
      assert r == Melted(rows[i], sid, cols, qs[k]);
      assert r in m;
    }
  }

  /** Wide layout (a melt that does not raise), membership: a row is in the output exactly when some input
      row and some question column (any column but `studentID`) hold a
      non-missing answer for it; an empty or blank answer is kept. */
  lemma NormalizeWideMembers(t: Table, r: AnswerRow)
    requires !IsLong(StripAll(t.columns)) && "studentID" in StripAll(t.columns) && !MeltFails(StripAll(t.columns))
    ensures Normalize(t).Some?
    ensures var cols := StripAll(t.columns);
      r in Normalize(t).value <==>
        exists i, j :: 0 <= i < |t.rows| && 0 <= j < |cols| && cols[j] != "studentID"
          && CellAt(t.rows[i], j).Some?
          && r == Melted(t.rows[i], IndexOf(cols, "studentID"), cols, j)
  {
    WideMembers(StripAll(t.columns), t.rows, r);
  }

  /** Wide layout (a melt that does not raise), count: students times question columns, less one row per
      missing cell of a question column. */
  lemma NormalizeWideCount(t: Table)
    requires !IsLong(StripAll(t.columns)) && "studentID" in StripAll(t.columns) && !MeltFails(StripAll(t.columns))
    ensures Normalize(t).Some?
    ensures var qs := QuestionColumns(StripAll(t.columns));
      |Normalize(t).value| == |t.rows| * |qs| - NullCells(t.rows, qs)
  {
    var cols := StripAll(t.columns);
    var sid := IndexOf(cols, "studentID");
    var qs := QuestionColumns(cols);
    var m := Melt(t.rows, sid, cols, qs);
    SortRowsSorted(DropNull(m));
    assert |SortRows(DropNull(m))| == |DropNull(m)| by {
      assert |multiset(SortRows(DropNull(m)))| == |multiset(DropNull(m))|;
    }
    DropNullCount(m);
    CountNullMelt(t.rows, sid, cols, qs);
  }

  /** The result depends on the header only through its trimmed form. */
  lemma NormalizeByStrippedHeader(t: Table, u: Table)
    requires StripAll(t.columns) == StripAll(u.columns) && t.rows == u.rows
    ensures Normalize(t) == Normalize(u)
  {
  }

  lemma StripAllUpdate(cols: seq<string>, j: nat, c: string)
    requires j < |cols| && Strip(c) == Strip(cols[j])
    ensures StripAll(cols[j := c]) == StripAll(cols)
  {
  }

  /** Column names are trimmed before any test: padding a header with
      whitespace changes nothing. */
  lemma PaddedHeader(t: Table, j: nat, pre: string, post: string)
    requires j < |t.columns| && AllSpace(pre) && AllSpace(post)
    ensures Normalize(Table(t.columns[j := pre + Strip(t.columns[j]) + post], t.rows)) == Normalize(t)
  {
    var c := pre + Strip(t.columns[j]) + post;
    StripPadded(pre, Strip(t.columns[j]), post);
    StripIdempotent(t.columns[j]);
    StripAllUpdate(t.columns, j, c);
    NormalizeByStrippedHeader(Table(t.columns[j := c], t.rows), t);
  }

  /** A table with an answer column but no question column is not long, and
      its melt would add a second `studentAnswer` column, which pandas 2
      refuses: the table is rejected. */
  lemma AnswerWithoutQuestionRejected(t: Table)
    requires "studentAnswer" in StripAll(t.columns) && "questionID" !in StripAll(t.columns)
    ensures Normalize(t) == None
  {
  }

  /** Two header names that both trim to `studentID`, in a table that is not
      long, make the melt fail, so the table is rejected. */
  lemma DuplicateStudentIDRejected(t: Table, i: nat, j: nat)
    requires i < j < |t.columns| && Strip(t.columns[i]) == "studentID" && Strip(t.columns[j]) == "studentID"
    requires !IsLong(StripAll(t.columns))
    ensures Normalize(t) == None
  {
    var cols := StripAll(t.columns);
    assert cols[i] == "studentID" && cols[j] == "studentID";
  }

  /** A header of already-trimmed names is left as it is. */
  lemma StripAllClean(cols: seq<string>)
    requires forall j :: 0 <= j < |cols| ==> Stripped(cols[j])
    ensures StripAll(cols) == cols
  {
    forall j | 0 <= j < |cols| ensures StripAll(cols)[j] == cols[j] {
      StripClean(cols[j]);
    }
  }

  /** A header of already-trimmed names none of which is `studentID` is not
      recognised. */
  lemma CleanHeaderWithoutStudentID(cols: seq<string>, rows: seq<seq<Cell>>)
    requires forall j :: 0 <= j < |cols| ==> Stripped(cols[j]) && cols[j] != "studentID"
    ensures Normalize(Table(cols, rows)) == None
  {
    StripAllClean(cols);
  }
}
