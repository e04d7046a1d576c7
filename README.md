# Submission validator and scorer of the RARE-X DREAM Challenge infrastructure

This project models, in Dafny, the two scripts that check and score a
challenge submission. A submission is a predictions table of rows
`(Participant_ID, Disease_Name)`. It is compared with a goldstandard table of
the same shape.

- **Validator** (`docker/validate.py`). It runs three checks over the
  predictions. The first looks for duplicate participant IDs: a row counts as a
  duplicate when its ID already occurred in an earlier row. The second looks for
  goldstandard IDs that no prediction carries. The third looks for prediction
  IDs that the goldstandard does not list. If the typed read of the predictions
  fails, the only message is "invalid column names and/or types". The non-empty
  messages are joined with newlines. The status is `INVALID` exactly when that
  join is non-empty, and `VALIDATED` otherwise. When the error string is longer
  than 500 characters, it becomes its first 496 characters followed by `...`.
- **Scorer** (`docker/score.py`). It left-joins the predictions onto the
  goldstandard rows by participant ID, in goldstandard order. It returns the
  fraction of joined rows whose predicted label equals the goldstandard label,
  reported as `{"submission_status": "SCORED", "accuracy": ...}`.

Layout, one module per concern:

- `tables.dfy` (`Tables`): the row type, the ID column, `Distinct`, `Elems`, an `Option` type.
- `idseqs.dfy` (`IdSeqs`): the pandas operations on ID columns that the validator uses.
  - `duplicated(keep="first")` as a boolean mask.
  - A mask's `any`, `sum` and row selection.
  - `Index.difference`, as a sorted sequence without repeats.
- `text.dfy` (`Text`): Python's `str` of an integer, the `repr` of a list of integers, `sep.join` and `filter(None, ...)`.
- `validate.dfy` (`Validate`): the three checks, `validate`, and the lines of `main` that join, decide the status and truncate.
- `score.dfy` (`Score`): the left join, the accuracy and the result object.

Some choices in the model:

- Reading is an abstract input. The predictions arrive as `Option<seq<Row>>`: `None` stands for the `ValueError` a typed read raises. The goldstandard IDs arrive as a `seq<int>`.
- Each check returns a `Report`: either `Clear` (the source's `""`) or the count and the ID list its message prints. `Render` gives the message string. Only a `Clear` report renders as `""`.
- `validate` and the end of `main` build their results step by step, so they are methods (`Validate`, `Summarize`). Each is proved equal to a function (`Reasons`, `OutcomeOf`), and the lemmas are stated about those functions.
- The accuracy is exact: a `real` built from two counts, never a float.

One behaviour of the source is kept as written. `missing_ids.any()` and `unknown_ids.any()` test whether some element is truthy. So a missing or unknown ID set holding only the ID `0` produces no message, and can even let a submission pass. `MissingZeroIdIsNotReported`, `UnknownZeroIdIsNotReported` and `ValidatedIff` state this.

## Model

| member | source | states |
|---|---|---|
| `IdSeqs.DuplicateMask` | docker/validate.py:30 | a row is marked exactly when its ID occurs in an earlier row ("first occurrence kept") |
| `IdSeqs.CountTruePositiveIff` | docker/validate.py:31-33 | the number of marked rows is positive exactly when some row is marked, so `any()` and `sum()` agree |
| `IdSeqs.CountTrue` | docker/validate.py:33 | `duplicates.sum()`, the number of marked positions; `CountTrueMultiplicity`, `CountTruePositiveIff` and `DuplicateCount` state what it counts |
| `IdSeqs.CountTrueMultiplicity` | docker/validate.py:33 | the sum of a mask is the number of times `true` occurs in it |
| `IdSeqs.Select` | docker/validate.py:34 | `pred[duplicates].Participant_ID`, the IDs at marked positions in row order; `SelectLength` and `LaterOccurrences` state its length and contents |
| `IdSeqs.SelectLength` | docker/validate.py:33-34 | the listed duplicate IDs are as many as the reported count |
| `IdSeqs.NoDuplicateIff` | docker/validate.py:30-31 | no row is marked exactly when the IDs are pairwise distinct |
| `IdSeqs.DuplicateCount` | docker/validate.py:30-33 | the duplicate count is the number of rows minus the number of distinct IDs |
| `IdSeqs.LaterOccurrences` | docker/validate.py:30-34 | every ID appears in the duplicate list one time fewer than in the rows; an ID that never occurs does not appear |
| `IdSeqs.SortedDifference` | docker/validate.py:42 | the difference is strictly ascending and holds exactly the values of the first column that are absent from the second |
| `IdSeqs.StrictlySortedUnique` | docker/validate.py:42 | two strictly ascending sequences with the same elements are equal, so the difference's list is determined by its set |
| `IdSeqs.SortedDifferenceSize` | docker/validate.py:42-45 | the length of the difference (`shape[0]`) is the size of the set difference |
| `Text.NatToDecimal` | docker/validate.py:33 | `str(count)`: at least one character, all decimal digits; `DecimalRoundTrip` proves the digits denote the count |
| `Text.DecimalRoundTrip` | docker/validate.py:33 | reading back the decimal digits a count prints gives the count |
| `Text.IntToDecimal` | docker/validate.py:34 | an ID prints as at least one character, with a leading minus sign exactly when it is negative |
| `Text.ListRepr` | docker/validate.py:34 | an ID list prints in square brackets; the entries are the decimal IDs joined by `", "` |
| `Text.ListReprExample` | docker/validate.py:34 | `[]` prints as `"[]"` and `[3, -1]` as `"[3, -1]"`, as Python prints them |
| `Text.NonEmpty` | docker/validate.py:95 | `filter(None, ...)` keeps exactly the non-empty messages, and never adds any; order and repeats are stated by `NonEmptyAppend` and `NonEmptyOne` |
| `Text.NonEmptyAppend` | docker/validate.py:95 | filtering keeps order and repeats: the filter of a concatenation is the concatenation of the filters |
| `Text.NonEmptyOne` | docker/validate.py:95 | a single message is kept exactly when it is non-empty (with `NonEmptyAppend` this fixes the filter on every list) |
| `Text.NonEmptyKeepsNonEmpty` | docker/validate.py:95 | filtering a list of non-empty messages leaves it unchanged |
| `Text.JoinWith` | docker/validate.py:95 | `"\n".join(parts)`; `JoinEmptyIff` and `JoinLength` state when it is empty and how long it is |
| `Text.JoinEmptyIff` | docker/validate.py:95-96 | a newline join of non-empty messages is empty exactly when there are none |
| `Text.JoinLength` | docker/validate.py:95 | the join's length is the sum of the messages' lengths plus one separator between each two neighbours |
| `Validate.Render` | docker/validate.py:32-35 | a check's message is `""` exactly when it found nothing |
| `Validate.CheckDups` | docker/validate.py:28-36 | `""` exactly when the prediction IDs are distinct; otherwise a positive count equal to the list length, which is rows minus distinct IDs |
| `Validate.AnyNonZero` | docker/validate.py:43 | `Index.any()` (also line 55): some entry is truthy, that is, non-zero; the check contracts and `MissingZeroIdIsNotReported` carry this truthiness test |
| `Validate.CheckMissingIds` | docker/validate.py:39-48 | reports exactly when some goldstandard ID missing from the predictions is non-zero; then the list is ascending, holds exactly the missing IDs, and its length is the count |
| `Validate.CheckUnknownIds` | docker/validate.py:51-60 | the mirror image: reports exactly when some non-zero prediction ID is absent from the goldstandard; the list is ascending, holds exactly the unknown IDs, and its length is the count |
| `Validate.MissingCount` | docker/validate.py:42-47 | the reported number of missing IDs is the size of the goldstandard ID set minus the prediction ID set |
| `Validate.UnknownCount` | docker/validate.py:54-59 | the reported number of unknown IDs is the size of the prediction ID set minus the goldstandard ID set |
| `Validate.MissingUnknownDisjoint` | docker/validate.py:39-60 | no ID is listed both as missing and as unknown |
| `Validate.SameIdSetsAreClear` | docker/validate.py:39-60 | when both tables carry the same ID set, the missing and unknown checks both return `""` |
| `Validate.MissingZeroIdIsNotReported` | docker/validate.py:43 | a missing goldstandard ID 0 on its own produces no message (`any()` tests truthiness) |
| `Validate.UnknownZeroIdIsNotReported` | docker/validate.py:55 | an unknown prediction ID 0 on its own produces no message |
| `Validate.ZeroIdIsListedBesideOthers` | docker/validate.py:43-47 | beside a non-zero missing ID, the ID 0 is counted and listed in ascending order |
| `Validate.Reasons` | docker/validate.py:63-83 | a failed typed read gives exactly the one invalid-columns message (`InvalidColumnsMessage`, the text of lines 75-78 with `str(cols)` written out); otherwise exactly three entries |
| `Validate.ReasonsEntries` | docker/validate.py:79-82 | the three entries are the duplicate, missing and unknown messages in that order, each `""` exactly when its check finds nothing |
| `Validate.Validate` | docker/validate.py:63-83 | the list built by appending step by step is the list `Reasons` describes |
| `Validate.Truncate` | docker/validate.py:99-100 | the result is at most 500 characters long; a string of up to 500 is unchanged; a longer one becomes its first 496 characters followed by `...` (499 in all) |
| `Validate.TruncateProperties` | docker/validate.py:99-100 | truncation keeps the string empty or non-empty, and truncating twice is truncating once |
| `Validate.OutcomeOf` | docker/validate.py:95-100 | `INVALID` exactly when some message is non-empty; `VALIDATED` exactly when the error string is empty; the error string is at most 500 characters long |
| `Validate.Summarize` | docker/validate.py:95-100 | the join, status and truncation done by reassignment give the outcome `OutcomeOf` describes |
| `Validate.ValidatedIff` | docker/validate.py:63-100 | `VALIDATED` exactly when the read succeeded, the prediction IDs are distinct, and every missing or unknown ID is 0 |
| `Validate.ExactIdsValidate` | docker/validate.py:39-100 | distinct prediction IDs covering exactly the goldstandard ID set give `VALIDATED` with an empty error string |
| `Validate.UnreadableIsInvalid` | docker/validate.py:70-78 | an unreadable predictions file gives `INVALID` with the invalid-columns message as the whole error string |
| `Validate.DuplicateExample` | docker/validate.py:28-36 | goldstandard {1,2,3} and rows with IDs [1,1,2,3] give one duplicate ID, `[1]`, nothing missing or unknown, and `INVALID` |
| `Validate.DuplicateMaskExample` | docker/validate.py:30-34 | the mask of IDs [1,1,2,3] marks one row, and the duplicate list is `[1]` |
| `Validate.MissingExampleReport` | docker/validate.py:42-47 | goldstandard {1,2,3} against prediction IDs 1 and 2 reports the one missing ID, `[3]` |
| `Validate.MissingExample` | docker/validate.py:39-48 | goldstandard {1,2,3} and predictions for 1 and 2 give one missing ID, `[3]`, and `INVALID` |
| `Score.Matching` | docker/score.py:33-34 | the prediction rows looked up for an ID are exactly those carrying that ID; multiplicity and order are stated by `MatchingCount`, `MatchingAppend` and `MatchingOne` |
| `Score.MatchingCount` | docker/score.py:33-34 | every prediction row carrying the ID is kept as often as it occurs: the lookup's length is the ID's multiplicity in the prediction IDs |
| `Score.MatchingAppend` | docker/score.py:33-34 | the lookup keeps predictions order: looking up in a concatenation concatenates the lookups |
| `Score.MatchingOne` | docker/score.py:33-34 | a single prediction row is kept exactly when it carries the ID (with `MatchingAppend` this fixes the lookup on every table) |
| `Score.MatchingEmptyIff` | docker/score.py:33-37 | a goldstandard ID has no prediction rows exactly when no prediction carries it |
| `Score.Predicted` | docker/score.py:33-37 | the joined rows of a predicted goldstandard row, one per matching prediction; `PredictedFollowsMatching` states their number and labels |
| `Score.JoinRow` | docker/score.py:33-37 | one goldstandard row's joined rows: its predictions, or one unlabelled row when there are none; `JoinRowSize` and `JoinRowCorrect` state its size and correct count |
| `Score.LeftJoin` | docker/score.py:33-37 | `gold.join(pred.set_index(...))`: each goldstandard row's joined rows, in goldstandard order; `LeftJoinAppend`, `JoinProvenance`, `JoinedNonEmpty` and `LeftJoinCounts` state its properties |
| `Score.LeftJoinAppend` | docker/score.py:31-37 | the joined table follows goldstandard order: joining a concatenation concatenates the joins |
| `Score.PredictedFollowsMatching` | docker/score.py:33-37 | a predicted goldstandard row yields one joined row per matching prediction, in predictions order, each carrying that prediction's label |
| `Score.JoinRowSize` | docker/score.py:33-37 | a goldstandard row yields as many joined rows as it has predictions, and exactly one (with no label) when it has none |
| `Score.JoinProvenance` | docker/score.py:33-37 | every joined row comes from a goldstandard row; its label, when present, comes from a prediction with the same ID; a missing label means no prediction has that ID |
| `Score.JoinRowCorrect` | docker/score.py:33-41 | the correct joined rows of one goldstandard row are as many as the predictions identical to that row |
| `Score.LeftJoinCounts` | docker/score.py:33-41 | the number of correct joined rows and the number of joined rows, each counted without building the join |
| `Score.JoinedNonEmpty` | docker/score.py:33-37 | the join has at least one row per goldstandard row |
| `Score.AtMostOneMatch` | docker/score.py:34 | with distinct prediction IDs, an ID is looked up to at most one prediction |
| `Score.UniqueIdsJoinOnePerRow` | docker/score.py:33-37 | with distinct prediction IDs, the join has exactly one row per goldstandard row |
| `Score.IsCorrect` | docker/score.py:38-40 | a joined row is correct when a predicted label is present and equals the goldstandard label; `JoinRowCorrect` counts these against the predictions |
| `Score.CountCorrect` | docker/score.py:38-41 | the numerator of `accuracy_score`: the number of correct joined rows, never more than the rows |
| `Score.Accuracy` | docker/score.py:38-41 | the accuracy is absent only for an empty join; otherwise it lies in [0, 1], times the row count it equals the count of correct rows, and it is 1 exactly when every row is correct |
| `Score.Score` | docker/score.py:27-41 | the accuracy is absent exactly for an empty goldstandard and otherwise lies in [0, 1] |
| `Score.ScoreFromCounts` | docker/score.py:33-41 | for a non-empty goldstandard, the accuracy is the number of agreeing predictions over the number of joined rows |
| `Score.UnpredictedJoinRow` | docker/score.py:33-37 | a goldstandard row whose ID no prediction carries joins to one row without a label, which is not correct |
| `Score.LeftJoinAround` | docker/score.py:33-37 | the join splits around any goldstandard row into the join before it, that row's joined rows, and the join after it |
| `Score.UnpredictedRowIsMismatch` | docker/score.py:33-41 | a goldstandard row without a prediction is a mismatch in the join |
| `Score.UnpredictedRowLowersAccuracy` | docker/score.py:33-41 | such a row makes the accuracy less than 1 |
| `Score.AllCorrect` | docker/score.py:33-41 | when every goldstandard row has exactly one prediction and it is identical to the row, every joined row is correct |
| `Score.PerfectPredictionsScoreOne` | docker/score.py:33-41 | in that case, for a non-empty goldstandard, the accuracy is 1 |
| `Score.HalfCorrectJoin` | docker/score.py:33-37 | goldstandard [(1,"A"),(2,"B")] joined with predictions [(1,"A"),(2,"C")] gives the rows (1,"A","A") and (2,"B","C") |
| `Score.HalfCorrectCount` | docker/score.py:40-41 | one of those two joined rows is correct |
| `Score.HalfCorrectExample` | docker/score.py:27-41 | goldstandard [(1,"A"),(2,"B")] and predictions [(1,"A"),(2,"C")] score 1/2, and the result is `SCORED` with accuracy 1/2 |
| `Score.Scored` | docker/score.py:57-60 | the written result has status `SCORED` and carries the accuracy unchanged |

## Left out

- `get_args` in both scripts: command-line parsing.
- File reading with `pd.read_table`, including dtype coercion and the `usecols` check. Only its outcome is modelled: a row sequence, or `None` for the caught `ValueError`.
- The goldstandard's own columns and types. Its IDs are taken to be integers, and its labels strings.
- JSON serialisation, printing, and writing the output file, in both `main` functions. This includes the scorer's branch that prints only the accuracy when no output file is given.
- IDs are unbounded integers. The 64-bit range that the typed read enforces belongs to the read's outcome.
- `IdSeqs.SortedDifference`: always sorted. Recent pandas versions return the unique values in first-occurrence order, not sorted, when the other index is empty (for example, the missing-ID check on a predictions table with no rows). Only the order of the IDs in that message differs.
- Missing values (NaN) inside the files' label columns. A label is a string, or absent only when the left join finds no prediction.
- `Score.Accuracy`: a goldstandard row without a prediction is counted as a mismatch. In `sklearn`, a NaN label mixed with string labels may instead raise in its label-type checks. That check is not modelled.
- `Score.Score`: an empty goldstandard gives an absent accuracy, standing for the NaN `accuracy_score` returns on empty input.
- Floating-point representation of the accuracy. It is an exact `real`.
- `baseline/base_model.py`: library calls for imputation and a random-forest classifier, with fixed file paths. It has no logic of its own.
