# SmartGrader grading core in Dafny

This project models the two parts of SmartGrader that make decisions.

- **The response-table normalizer.** `transform_quiz_to_answer_format` takes an uploaded table of student answers. It first trims the column names. A table that already has `studentID`, `questionID` and `studentAnswer` columns is cut down to those three columns and left otherwise untouched. A table that has `studentID` but not all three canonical columns is treated as wide: every other column is a question, and the table is melted into one `(studentID, questionID, studentAnswer)` row per student and question. Rows with a missing answer are dropped, and the result is sorted by `(studentID, questionID)`. A table without `studentID` is rejected with `None`. So is a wide table on which the melt raises: one that already has a `studentAnswer` column, or two columns that trim to `studentID`. The catch-all exception handler turns that error into `None`.
- **The grading loop and its threshold policy.** `load_data` turns the answer key into a dictionary, where a later entry for a question overwrites an earlier one. It then walks the canonical rows in order. For each row it looks up the reference answer (a missing question gives `""`), asks the similarity oracle for a value, and builds one record. The record's score comes from `scroering`: 1 at 0.85 or more, 0.5 at 0.75 or more, 0 otherwise. Its review flag comes from `need_review`: below 0.85. Both use the unrounded similarity; only the stored `similarity` field is rounded.

Modules:

- `Text` (text.dfy): Python's `str.strip()` with Python's whitespace set, and code-point order on strings.
- `Canonical` (canonical.dfy): the canonical row, the `(studentID, questionID)` order with missing values last, and a stable insertion sort. It is proved sorted, a permutation of its input, and order-preserving among rows with equal keys.
- `Transform` (transform.dfy): the normalizer as functions over a header and rows of optional cells, with lemmas for each outcome.
- `Scoring` (scoring.dfy): `scroering` (here `Score`) and `need_review` (here `NeedReview`).
- `Export` (export.dfy): `load_data` as a method with a loop over the rows. It is proved against the per-row function `GradeRow` and the key function `KeyDict`.
- `Scenarios` (scenarios.dfy): the layouts from the upload help worked through the model.

The similarity oracle (`answer_similarity`) and `round(·, 2)` are function parameters. The model has no embedding model of its own.

The model follows the code where other descriptions of the system differ from it:

- The upload help advertises a form-export layout (`Timestamp, Score, Student ID, …`, relabelled `Q1…Qn`) at app.py:22-28. transform.py has no code for it. Such a table has no `studentID` column, so it is rejected (`Scenarios.FormExportNotRecognised`).
- The code drops only missing answers (`dropna`). Once the table is read, a blank or whitespace-only answer is kept (`Scenarios.BlankKeptMissingDropped`). Which fields count as missing is decided by `read_csv` (see "## Left out").
- In the long layout the code neither drops nor sorts anything.

## Model

| member | source | states |
|---|---|---|
| Transform.StripAll | transform.py:19 | no contract of its own: the header with each name trimmed; Text.Strip, Text.StripPadded, Transform.NormalizeByStrippedHeader and Transform.PaddedHeader state its properties |
| Text.Strip | transform.py:19 | a trimmed name has no whitespace at either end and is no longer than the original |
| Text.StripPadded | transform.py:19 | trimming removes exactly the whitespace around a name, so ` studentID ` reads as `studentID` |
| Text.StripIdempotent | transform.py:19 | trimming a trimmed name changes nothing |
| Canonical.SortRows | transform.py:49 | its own contract says only that the result is a permutation of the input; Canonical.SortRowsSorted and Canonical.SortRowsStable state that it is sorted and stable |
| Canonical.SortRowsSorted | transform.py:49 | the sorted rows are in ascending `(studentID, questionID)` order and are a permutation of the input rows |
| Canonical.SortRowsStable | transform.py:49 | rows that share both keys keep their input order (pandas' multi-key sort is stable) |
| Transform.Project | transform.py:27 | no contract of its own: the three canonical cells of every row; Transform.NormalizeLong states its result |
| Transform.IndexOf | transform.py:27 | the selected column carries the requested name and is the first one that does |
| Transform.QuestionColumns | transform.py:34 | the question columns are exactly the columns not named `studentID`, in left-to-right order |
| Transform.Melt | transform.py:37-43 | its own contract gives only the length, rows × question columns; Transform.MeltAt, Transform.MeltMembers and Transform.CountNullMelt state its contents |
| Transform.MeltAt | transform.py:37-43 | the melt is column-major: block k holds question column k for every input row, in input order |
| Transform.MeltMembers | transform.py:37-43 | a melted row is in the melt iff it pairs some input row with some question column |
| Transform.DropNull | transform.py:46 | no contract of its own: the rows whose answer is not missing, in order; Transform.DropNullMembers and Transform.DropNullCount state its properties |
| Transform.DropNullMembers | transform.py:46 | a row survives the drop iff it was there and its answer is not missing |
| Transform.DropNullCount | transform.py:46 | the drop removes exactly one row per missing answer |
| Transform.CountNullMelt | transform.py:37-46 | the missing answers of the melt are, one for one, the missing cells of the question columns |
| Transform.Normalize | transform.py:4-74 | no contract of its own: the whole normalizer; Transform.NormalizeLong, Transform.NormalizeNone, the Transform.NormalizeWide* rows, Transform.NormalizeByStrippedHeader and Transform.PaddedHeader state its outcomes |
| Transform.Wide | transform.py:30-49 | no contract of its own: melt, drop, sort; Transform.NormalizeWideSorted, Transform.NormalizeWideMembers and Transform.NormalizeWideCount state its result |
| Transform.NormalizeLong | transform.py:25-27 | with all three canonical columns present, the result is those three cells of every input row, same count and order, nothing sorted or dropped, although `studentID` is present too |
| Transform.NormalizeNone | transform.py:24-74 | the result is `None` iff no trimmed column is named `studentID`, or there is an answer column but no question column (the melt's `value_name` clashes), or `studentID` names two columns and the table is not long (the melt's id column is a frame) |
| Transform.AnswerWithoutQuestionRejected | transform.py:30-74 | a table with `studentAnswer` but no `questionID` is rejected, since pandas refuses a melt `value_name` that is already a column |
| Transform.DuplicateStudentIDRejected | transform.py:30-74 | two header names that both trim to `studentID`, in a table that is not long, get the table rejected |
| Transform.NormalizeWideSorted | transform.py:30-49 | wide layout, melt not raising: the output is sorted by `(studentID, questionID)` and keeps the melt's order among equal keys |
| Transform.NormalizeWideMembers | transform.py:30-46 | wide layout, melt not raising: a row is in the output iff some input row holds a non-missing answer for it in a column other than `studentID`; that column's name is its `questionID` |
| Transform.NormalizeWideCount | transform.py:33-46 | wide layout, melt not raising: output size is students × question columns minus the missing cells in question columns |
| Transform.NormalizeByStrippedHeader | transform.py:19-30 | the outcome depends on the header only through the trimmed names |
| Transform.PaddedHeader | transform.py:19-30 | padding any header name with whitespace does not change the outcome |
| Transform.CleanHeaderWithoutStudentID | transform.py:53-58 | a header of trimmed names without `studentID` is rejected |
| Scoring.Score | scoring.py:14-20 | the score is always 0, 0.5 or 1 |
| Scoring.ScoreBands | scoring.py:14-20 | score 1 iff similarity ≥ 0.85; 0.5 iff 0.75 ≤ similarity < 0.85; 0 iff similarity < 0.75 |
| Scoring.ScoreMonotone | scoring.py:14-20 | a higher similarity never gets a lower score |
| Scoring.NeedReview | scoring.py:22-23 | no contract of its own: similarity below 0.85; Scoring.ReviewIffNotFullCredit and Scoring.Boundaries state its relation to the score |
| Scoring.ReviewIffNotFullCredit | scoring.py:14-23 | the review flag is set iff the score is not 1 |
| Scoring.Boundaries | scoring.py:14-23 | 0.85 gets score 1 and no flag; 0.849999 gets 0.5 and a flag; 0.75 gets 0.5; 0.749999 gets 0 |
| Export.KeyDict | export.py:14-19 | the key dictionary holds exactly the questions the answer key lists |
| Export.KeyDictLastWins | export.py:14-19 | for a question listed more than once, the last entry's answer is kept |
| Export.Lookup | export.py:26 | no contract of its own: the stored answer, or `""`; Export.LookupMissing and Export.GradeRowReference state both cases |
| Export.LookupMissing | export.py:26 | a question absent from the key looks up as `""` |
| Export.LoadData | export.py:20-40 | one record per input row, in input order; record i is the grading of row i against the key dictionary |
| Export.GradeRow | export.py:23-39 | no contract of its own: one loop iteration's record; Export.GradeRowCopies, Export.GradeRowReference, Export.GradeRowMissingKey, Export.MissingKeyFlagged and Export.GradeRowPolicy state its fields |
| Export.GradeRowCopies | export.py:23-35 | `studentID`, `questionID` and `studentAnswer` are copied unchanged into the record |
| Export.GradeRowReference | export.py:14-26 | a record's reference answer is the key's last entry for its question |
| Export.GradeRowMissingKey | export.py:26 | a question missing from the key is graded against `""` without failing |
| Export.MissingKeyFlagged | export.py:26-30 | if the oracle rates everything against `""` below 0.85, a record for a missing question is always flagged |
| Export.GradeRowPolicy | export.py:28-39 | score and flag follow the unrounded similarity; the flag is off iff the score is 1; only the stored similarity is rounded |
| Scenarios.WideExample | transform.py:30-49 | `studentID, Q1, Q2` with one student yields the Q1 row, then the Q2 row |
| Scenarios.BlankKeptMissingDropped | transform.py:46 | a blank answer is kept and a missing answer is dropped |
| Scenarios.FormExportNotRecognised | transform.py:53-58 | the form-export header `Timestamp, Score, Student ID, …` is rejected |
| Scenarios.AnswerColumnWithoutQuestion | transform.py:30-74 | the header `studentID, studentAnswer, Q1` is rejected whatever the rows |
| Scenarios.DuplicateStudentIDHeader | transform.py:19-74 | the header `studentID, studentID<whitespace>, Q1` is rejected whatever the rows |
| Scenarios.GradingExample | export.py:22-40 | a row whose key entry the oracle rates 0.9 gets score 1 and no flag |

## Left out

- Reading and writing files is not modelled. This covers `read_csv` (transform.py:16, export.py:7-8), `to_csv` (transform.py:61), and the commented-out writes at export.py:43-44. The model takes and returns tables and records already in memory. `load_data` builds a DataFrame from its records; the model returns the sequence of records.
- Which fields `read_csv` reads as missing is not modelled. With `skipinitialspace=True` (transform.py:16) an empty field, an unquoted field of spaces, and tokens such as `NA`, `null`, `None` and `n/a` all become NaN, so `dropna` drops them. Only a quoted blank such as `" "` reaches the model as a kept blank answer. The model takes the cells as already read.
- Type inference by `read_csv` is not modelled. For example, `001` would be read as the integer 1. Every cell is modelled as a string or missing, so the sort compares strings by code point.
- The diagnostic `print` calls are left out. The catch-all exception handling (transform.py:69-74) is modelled only for the two errors the melt raises on a header that reaches it: a `studentAnswer` column already present, and a duplicated `studentID`. Both give `None`. The first follows pandas 2, where `melt` refuses a `value_name` that names a column; pandas 1 only warned there. Errors from reading the file are outside the model.
- Export.LoadData: the error paths of `load_data` are not modelled. A key table without a `questionID` or `correctAnswer` column raises `KeyError` at export.py:16-17, and an answer table without `studentID`, `questionID` or `studentAnswer` raises at export.py:23-25. export.py has no handler, so the error reaches the caller and no records are produced. The model's typed `KeyEntry` and `GradingRow` cannot express such tables, and the header cleaning at export.py:11-12 is absorbed into those types.
- Transform.MeltAt: `Melt` orders its blocks by column position. This is pandas' order before the sort only when the question names are distinct. With a repeated name such as `studentID, Q1, Q2, Q1 `, pandas puts both `Q1` blocks before the `Q2` block. The sorted output is the same either way, since the stable sort keeps the order within each key and both orders agree there.
- Transform.NormalizeLong: in the long layout, a canonical name that two columns share after trimming is modelled by its first such column. pandas would select every column with that name, giving a wider output. In the wide layout a duplicated `studentID` is rejected as described above, and a duplicated question name is melted once per column, as pandas does.
- `answer_similarity` and the global sentence-embedding model (scoring.py:3-12) are an external machine-learning computation. They are a function parameter of the grading code.
- `round(similarity, 2)` (export.py:37) is binary floating-point rounding. It is an arbitrary function parameter applied only to the stored field.
- Scoring.Score: similarities and thresholds are exact reals. Python compares binary doubles, so 0.85 and 0.75 stand for their nearest doubles. The int/float mix of the returned scores (1, 0.5, 0) is modelled as reals.
- A missing cell that reaches the grading loop (a missing answer in an already-long table, read back as NaN) is not modelled. Grading rows carry strings.
- `app.py` (the Streamlit upload, display and download page) is not modelled. This includes its read of `graded_result.xlsx` (app.py:90), a file that `load_data` no longer writes.
- `create_sample_quiz` and the command-line entry point (transform.py:77-117) are fixture and command-line plumbing.
