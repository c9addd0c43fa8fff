/** The grading loop `load_data`: look every answer row up in the answer
    key, score it with the similarity oracle and the threshold policy, and
    collect one record per row. */
module Export {
  import opened Scoring

  /** A canonical row as the grading loop reads it back. */
  datatype GradingRow = GradingRow(studentID: string, questionID: string, studentAnswer: string)

  /** One line of the answer key. */
  datatype KeyEntry = KeyEntry(questionID: string, correctAnswer: string)

  datatype GradedRecord = GradedRecord(
    studentID: string,
    questionID: string,
    studentAnswer: string,
    correctAnswer: string,
    similarity: real,
    score: real,
    needReview: bool)

  /** The similarity oracle (`answer_similarity`), passed in. */
  type Oracle = (string, string) -> real

  /** `dict(zip(df_key["questionID"], df_key["correctAnswer"]))`: entries are
      stored in key order, so a later entry for a question replaces an
      earlier one. The keys are exactly the questions the key lists. */
  function KeyDict(key: seq<KeyEntry>): (d: map<string, string>)
    ensures forall q :: q in d <==> exists i :: 0 <= i < |key| && key[i].questionID == q
  {
    if key == [] then map[]
    else
      var front, last := key[..|key| - 1], key[|key| - 1];
      assert forall i :: 0 <= i < |front| ==> front[i] == key[i];
      KeyDict(front)[last.questionID := last.correctAnswer]
  }

  /** `key_dict.get(question_id, "")`. */
  function Lookup(d: map<string, string>, q: string): string {
    if q in d then d[q] else ""
  }

  /** The record built for one row (the body of the loop). `round2` stands
      for `round(similarity, 2)` and touches only the stored field. */
  function GradeRow(row: GradingRow, d: map<string, string>, sim: Oracle, round2: real -> real): GradedRecord {
    var correct := Lookup(d, row.questionID);
    var similarity := sim(row.studentAnswer, correct);
    GradedRecord(row.studentID, row.questionID, row.studentAnswer, correct,
                 round2(similarity), Score(similarity), NeedReview(similarity))
  }

  /** `load_data` on tables already read: one record per answer row, in
      order, record `i` depending on row `i` and the key alone. */
  method LoadData(answers: seq<GradingRow>, key: seq<KeyEntry>, sim: Oracle, round2: real -> real)
    returns (results: seq<GradedRecord>)
    ensures |results| == |answers|
    ensures forall i :: 0 <= i < |answers| ==> results[i] == GradeRow(answers[i], KeyDict(key), sim, round2)
  {
    var keyDict := KeyDict(key);
    results := [];
    for i := 0 to |answers|
      invariant |results| == i
      invariant forall k :: 0 <= k < i ==> results[k] == GradeRow(answers[k], keyDict, sim, round2)
    {
      var row := answers[i];
      var correctAnswer := Lookup(keyDict, row.questionID);
      var similarity := sim(row.studentAnswer, correctAnswer);
      var score := Score(similarity);
      var review := NeedReview(similarity);
      results := results + [GradedRecord(row.studentID, row.questionID, row.studentAnswer, correctAnswer,
                                         round2(similarity), score, review)];
    }
  }

  // ---------------------------------------------------------------------------
  // The answer key

  /** The last entry for a question is the one kept. */
  lemma {:induction false} KeyDictLastWins(key: seq<KeyEntry>, i: nat)
    requires i < |key|
    requires forall j :: i < j < |key| ==> key[j].questionID != key[i].questionID
    ensures key[i].questionID in KeyDict(key)
    ensures KeyDict(key)[key[i].questionID] == key[i].correctAnswer
  {
    if i < |key| - 1 {
      KeyDictLastWins(key[..|key| - 1], i);
    }
  }

  /** A question the key does not list looks up as the empty answer. */
  lemma LookupMissing(key: seq<KeyEntry>, q: string)
    requires forall i :: 0 <= i < |key| ==> key[i].questionID != q
    ensures Lookup(KeyDict(key), q) == ""
  {
  }

  // ---------------------------------------------------------------------------
  // One record

  /** The identifying fields and the answer are copied unchanged. */
  lemma GradeRowCopies(row: GradingRow, key: seq<KeyEntry>, sim: Oracle, round2: real -> real)
    ensures var g := GradeRow(row, KeyDict(key), sim, round2);
      g.studentID == row.studentID && g.questionID == row.questionID && g.studentAnswer == row.studentAnswer
  {
  }

  /** The reference answer is the key's last entry for the row's question. */
  lemma GradeRowReference(row: GradingRow, key: seq<KeyEntry>, i: nat, sim: Oracle, round2: real -> real)
    requires i < |key| && key[i].questionID == row.questionID
    requires forall j :: i < j < |key| ==> key[j].questionID != row.questionID
    ensures GradeRow(row, KeyDict(key), sim, round2).correctAnswer == key[i].correctAnswer
  {
    KeyDictLastWins(key, i);
  }

  /** A question missing from the key is graded against the empty string. */
  lemma GradeRowMissingKey(row: GradingRow, key: seq<KeyEntry>, sim: Oracle, round2: real -> real)
    requires forall i :: 0 <= i < |key| ==> key[i].questionID != row.questionID
    ensures GradeRow(row, KeyDict(key), sim, round2).correctAnswer == ""
  {
    LookupMissing(key, row.questionID);
  }

  /** With an oracle that rates every answer against the empty string below
      full credit, a question missing from the key is always flagged. */
  lemma MissingKeyFlagged(row: GradingRow, key: seq<KeyEntry>, sim: Oracle, round2: real -> real)
    requires forall i :: 0 <= i < |key| ==> key[i].questionID != row.questionID
    requires forall a :: sim(a, "") < FullCredit
    ensures GradeRow(row, KeyDict(key), sim, round2).needReview
  {
    LookupMissing(key, row.questionID);
  }

  /** Score and flag are decided on the unrounded similarity: whatever the
      rounding does to the stored value, the flag is off exactly when the
      score is full credit, and both follow the oracle's raw value. */
  lemma GradeRowPolicy(row: GradingRow, d: map<string, string>, sim: Oracle, round2: real -> real)
    ensures var g := GradeRow(row, d, sim, round2);
      var raw := sim(row.studentAnswer, Lookup(d, row.questionID));
      (g.score == 1.0 <==> raw >= 0.85)
      && (g.score == 0.5 <==> 0.75 <= raw < 0.85)
      && (g.score == 0.0 <==> raw < 0.75)
      && (g.needReview <==> raw < 0.85)
      && (!g.needReview <==> g.score == 1.0)
      && g.similarity == round2(raw)
  {
    var raw := sim(row.studentAnswer, Lookup(d, row.questionID));
    ScoreBands(raw);
    ReviewIffNotFullCredit(raw);
  }
}
