/** The canonical answer row `(studentID, questionID, studentAnswer)`, the
    order pandas' `sort_values(['studentID', 'questionID'])` puts such rows
    in, and a stable sort that realises it. */
module Canonical {
  import opened Text

  datatype Option<T> = None | Some(value: T)

  /** One cell of a table read from CSV: a string, or a missing value (NaN). */
  type Cell = Option<string>

  datatype AnswerRow = AnswerRow(studentID: Cell, questionID: Cell, studentAnswer: Cell)

  /** Ascending order on one sort column: strings by code point, missing
      values last (pandas' default `na_position='last'`). */
  predicate CellLe(a: Cell, b: Cell) {
    match (a, b)
    case (Some(x), Some(y)) => StrLe(x, y)
    case (Some(_), None) => true
    case (None, Some(_)) => false
    case (None, None) => true
  }

  /** Ascending order by `studentID`, then by `questionID`. */
  predicate RowLe(r: AnswerRow, s: AnswerRow) {
    if r.studentID == s.studentID then CellLe(r.questionID, s.questionID)
    else CellLe(r.studentID, s.studentID)
  }

  predicate SameKey(r: AnswerRow, s: AnswerRow) {
    r.studentID == s.studentID && r.questionID == s.questionID
  }

  predicate Sorted(rs: seq<AnswerRow>) {
    forall i, j :: 0 <= i < j < |rs| ==> RowLe(rs[i], rs[j])
  }

  lemma CellLeRefl(a: Cell)
    ensures CellLe(a, a)
  {
    if a.Some? { StrLeRefl(a.value); }
  }

  lemma CellLeTotal(a: Cell, b: Cell)
    ensures CellLe(a, b) || CellLe(b, a)
  {
    if a.Some? && b.Some? { StrLeTotal(a.value, b.value); }
  }

  lemma CellLeAntisym(a: Cell, b: Cell)
    requires CellLe(a, b) && CellLe(b, a)
    ensures a == b
  {
    if a.Some? && b.Some? { StrLeAntisym(a.value, b.value); }
  }

  lemma CellLeTrans(a: Cell, b: Cell, c: Cell)
    requires CellLe(a, b) && CellLe(b, c)
    ensures CellLe(a, c)
  {
    if a.Some? && b.Some? && c.Some? { StrLeTrans(a.value, b.value, c.value); }
  }

  /** Rows compare equal both ways exactly when their sort keys coincide. */
  lemma RowLeBothWays(r: AnswerRow, s: AnswerRow)
    ensures RowLe(r, s) && RowLe(s, r) <==> SameKey(r, s)
  {
    if SameKey(r, s) {
      CellLeRefl(r.questionID);
    } else if RowLe(r, s) && RowLe(s, r) {
      if r.studentID == s.studentID {
        CellLeAntisym(r.questionID, s.questionID);
      } else {
        CellLeAntisym(r.studentID, s.studentID);
      }
    }
  }

  /** The row order is a total preorder. */
  lemma RowLeTotal(r: AnswerRow, s: AnswerRow)
    ensures RowLe(r, s) || RowLe(s, r)
  {
    CellLeTotal(r.studentID, s.studentID);
    CellLeTotal(r.questionID, s.questionID);
  }

  lemma RowLeTrans(r: AnswerRow, s: AnswerRow, t: AnswerRow)
    requires RowLe(r, s) && RowLe(s, t)
    ensures RowLe(r, t)
  {
    if r.studentID == s.studentID == t.studentID {
      CellLeTrans(r.questionID, s.questionID, t.questionID);
    } else if r.studentID == s.studentID {
      assert CellLe(s.studentID, t.studentID);
    } else if s.studentID == t.studentID {
      assert CellLe(r.studentID, s.studentID);
    } else {
      CellLeTrans(r.studentID, s.studentID, t.studentID);
      if r.studentID == t.studentID {
        CellLeAntisym(r.studentID, s.studentID);
      }
    }
  }

  /** Inserts `x` in front of the first row it does not sort after, so that it
      stays ahead of every row with the same key. */
  function Insert(x: AnswerRow, ys: seq<AnswerRow>): (r: seq<AnswerRow>)
    ensures multiset(r) == multiset(ys) + multiset{x}
  {
    if ys == [] || RowLe(x, ys[0]) then [x] + ys
    else
      assert ys == [ys[0]] + ys[1..];
      [ys[0]] + Insert(x, ys[1..])
  }

  /** Stable insertion sort by `(studentID, questionID)`. */
  function SortRows(xs: seq<AnswerRow>): (r: seq<AnswerRow>)
    ensures multiset(r) == multiset(xs)
  {
    if xs == [] then []
    else
      assert xs == [xs[0]] + xs[1..];
      Insert(xs[0], SortRows(xs[1..]))
  }

  lemma {:induction false} InsertSorted(x: AnswerRow, ys: seq<AnswerRow>)
    requires Sorted(ys)
    ensures Sorted(Insert(x, ys))
  {
    if ys == [] || RowLe(x, ys[0]) {
      forall j | 0 <= j < |ys| ensures RowLe(x, ys[j]) {
        if j > 0 { RowLeTrans(x, ys[0], ys[j]); }
      }
    } else {
      var tail := Insert(x, ys[1..]);
      InsertSorted(x, ys[1..]);
      RowLeTotal(x, ys[0]);
      forall j | 0 <= j < |tail| ensures RowLe(ys[0], tail[j]) {
        assert tail[j] in multiset(tail);
        if tail[j] != x {
          assert tail[j] in multiset(ys[1..]);
          var m :| 0 <= m < |ys[1..]| && ys[1..][m] == tail[j];
          assert ys[1 + m] == tail[j];
        }
      }
    }
  }

  /** The sort's result is ordered by `(studentID, questionID)` and is a
      permutation of its input. */
  lemma {:induction false} SortRowsSorted(xs: seq<AnswerRow>)
    ensures Sorted(SortRows(xs))
    ensures multiset(SortRows(xs)) == multiset(xs)
  {
    if xs != [] {
      SortRowsSorted(xs[1..]);
      InsertSorted(xs[0], SortRows(xs[1..]));
    }
  }

  /** `r` alone if its key is `(sid, qid)`, nothing otherwise. */
  function Pick(r: AnswerRow, sid: Cell, qid: Cell): seq<AnswerRow> {
    if r.studentID == sid && r.questionID == qid then [r] else []
  }

  /** The rows of `rs` whose key is `(sid, qid)`, in their order in `rs`. */
  function WithKey(rs: seq<AnswerRow>, sid: Cell, qid: Cell): seq<AnswerRow> {
    if rs == [] then [] else Pick(rs[0], sid, qid) + WithKey(rs[1..], sid, qid)
  }

  lemma WithKeyCons(r: AnswerRow, rs: seq<AnswerRow>, sid: Cell, qid: Cell)
    ensures WithKey([r] + rs, sid, qid) == Pick(r, sid, qid) + WithKey(rs, sid, qid)
  {
    assert ([r] + rs)[1..] == rs;
  }

  /** Two rows that do not sort equal are never both picked, so picking
      them commutes. */
  lemma PickSwap(x: AnswerRow, y: AnswerRow, sid: Cell, qid: Cell)
    requires !RowLe(x, y)
    ensures Pick(y, sid, qid) + Pick(x, sid, qid) == Pick(x, sid, qid) + Pick(y, sid, qid)
  {
    RowLeBothWays(x, y);
  }

  lemma {:induction false} InsertWithKey(x: AnswerRow, ys: seq<AnswerRow>, sid: Cell, qid: Cell)
    ensures WithKey(Insert(x, ys), sid, qid) == WithKey([x] + ys, sid, qid)
  {
    if ys != [] && !RowLe(x, ys[0]) {
      var y, rest := ys[0], ys[1..];
      assert ys == [y] + rest;
      assert Insert(x, ys) == [y] + Insert(x, rest);
      InsertWithKey(x, rest, sid, qid);
      WithKeyCons(y, Insert(x, rest), sid, qid);
      WithKeyCons(x, rest, sid, qid);
      WithKeyCons(x, ys, sid, qid);
      WithKeyCons(y, rest, sid, qid);
      PickSwap(x, y, sid, qid);
      SwapFront(Pick(y, sid, qid), Pick(x, sid, qid), WithKey(rest, sid, qid));
    }
  }

  lemma SwapFront(a: seq<AnswerRow>, b: seq<AnswerRow>, c: seq<AnswerRow>)
    requires a + b == b + a
    ensures a + (b + c) == b + (a + c)
  {
    assert a + (b + c) == (a + b) + c;
    assert (b + a) + c == b + (a + c);
  }

  /** The sort is stable: rows that share a key keep their relative order. */
  lemma {:induction false} SortRowsStable(xs: seq<AnswerRow>, sid: Cell, qid: Cell)
    ensures WithKey(SortRows(xs), sid, qid) == WithKey(xs, sid, qid)
  {
    if xs != [] {
      SortRowsStable(xs[1..], sid, qid);
      InsertWithKey(xs[0], SortRows(xs[1..]), sid, qid);
      WithKeyCons(xs[0], SortRows(xs[1..]), sid, qid);
      WithKeyCons(xs[0], xs[1..], sid, qid);
      assert xs == [xs[0]] + xs[1..];
    }
  }
}
