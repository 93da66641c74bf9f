# Set-overlap F1 evaluation, modelled in Dafny

This project models the F1 metric of the `ai_eval` evaluation scripts. Each
example pairs a reference list of items with a candidate list. Both lists are
reduced to their distinct items. The score of a pair is the harmonic mean of
precision (shared items over candidate items) and recall (shared items over
reference items), or 0 when nothing is shared. The corpus score is the
unweighted mean of the per-pair scores. Pairs are formed position by position,
as Python's `zip` forms them.

Files:

- `outcome.dfy` (module `Outcome`): the `Result` type and the three
  division-by-zero failures of the program.
- `set_f1.dfy` (module `SetF1`): `calculate_f1` and its properties.
- `macro_f1.dfy` (module `MacroF1`): per-pair scoring over the zipped lists
  and the macro average.

Modelling choices:

- Items have a generic type with equality. Python's `set(xs)` is `ToSet`.
- Ratios are exact `real` values, not IEEE doubles. The integer `0` that the
  source returns for an empty intersection is modelled as `0.0`.
- Each `ZeroDivisionError` of the source is a `Result` error, not a
  precondition. The program raises it in three places:
  - `EmptyCandidate`: the precision step, when the candidate list is empty.
    Precision is computed before recall, so this error wins when both lists
    are empty.
  - `EmptyReference`: the recall step, when only the reference list is empty.
  - `NoPairs`: the mean, when there is no pair to score.
- The list comprehension scores the pairs in order. So the first failing pair
  decides the error, and `NoPairs` can only come up when no pair exists.

## Model

| member | source | states |
|---|---|---|
| SetF1.ToSet | eval_f1.py:54 | the set holds exactly the items of the list, and it is empty exactly when the list is empty |
| SetF1.Precision | eval_f1.py:58 | precision lies in [0,1]; it is 0 iff the sets are disjoint and 1 iff the candidate set lies inside the reference set; times the candidate size it gives the intersection size |
| SetF1.Recall | eval_f1.py:59 | recall lies in [0,1]; it is 0 iff the sets are disjoint and 1 iff the reference set lies inside the candidate set; times the reference size it gives the intersection size |
| SetF1.F1OfSets | eval_f1.py:55-61 | for two non-empty sets, F1 lies in [0,1]; it is 0 iff the sets are disjoint and 1 iff they are equal; with a non-empty intersection it equals 2·\|I\|/(\|R\|+\|C\|) |
| SetF1.CalculateF1 | eval_f1.py:53-63 | an empty candidate fails at the precision division, before the reference is looked at; otherwise an empty reference fails at the recall division; the call succeeds iff both lists are non-empty, and then the score lies in [0,1] |
| SetF1.ZeroIffDisjoint | eval_f1.py:61 | for non-empty lists the score is 0 exactly when no reference item occurs in the candidate |
| SetF1.OneIffSameItems | eval_f1.py:54-61 | for non-empty lists the score is 1 exactly when both lists hold the same distinct items |
| SetF1.F1ClosedForm | eval_f1.py:58-61 | with at least one shared item the score is twice the number of shared distinct items over the sum of the two numbers of distinct items |
| SetF1.OnlyDistinctItemsMatter | eval_f1.py:54 | two pairs of lists with the same items give the same result, error or score |
| SetF1.RepetitionIgnored | eval_f1.py:54 | appending an item already present in the reference or in the candidate leaves the result unchanged |
| SetF1.Symmetric | eval_f1.py:58-61 | swapping reference and candidate keeps success or failure, and on success keeps the score |
| SetF1.HalfOverlapExample | eval_f1.py:53-63 | reference [cat, dog] against candidate [dog, bird] has precision, recall and F1 of exactly 0.5 |
| SetF1.SubsetCardinality | eval_f1.py:55 | a subset is no larger than its superset and is as large only when it is the superset, which bounds the intersection by each side |
| MacroF1.ScoreFrom | eval_f1.py:73 | from position k on, the scores are produced iff every remaining zipped pair has items on both sides; there is then one score per remaining pair, in order, each equal to that pair's score |
| MacroF1.ScoreFromFailure | eval_f1.py:73 | when scoring from position k fails, the error is that of the first pair at or after k that cannot be scored, and every pair before it scores |
| MacroF1.ScorePairs | eval_f1.py:73 | the scores are produced iff every zipped pair has items on both sides; there is then one score per pair up to the shorter list, each equal to that pair's score; on failure the error is that of the first failing pair |
| MacroF1.SumBounds | eval_f1.py:74 | `Sum`, the left-to-right `sum(f1_list)`, of scores in [0,1] lies between 0 and their count; it equals the count iff every score is 1 and is 0 iff every score is 0 |
| MacroF1.Min | eval_f1.py:73 | the number of pairs `zip` forms is no more than either list length and equals one of them, so it is the shorter length |
| MacroF1.Macro | eval_f1.py:73-74 | the mean fails with the division by zero exactly when there is no pair; the call succeeds iff there is a pair and every pair has items on both sides, and the mean then lies in [0,1]; when pairs exist, any error is the first failing pair's |
| MacroF1.MacroIsMean | eval_f1.py:73-74 | the macro F1 equals the sum of the per-pair scores divided by the number of pairs |
| MacroF1.MacroPerfect | eval_f1.py:73-74 | a successful macro F1 is 1 exactly when every zipped pair holds the same distinct items on both sides |
| MacroF1.MacroZero | eval_f1.py:73-74 | a successful macro F1 is 0 exactly when no zipped pair shares an item |
| MacroF1.ZipIgnoresExtra | eval_f1.py:73 | cutting both inputs to the length of the shorter one does not change the macro F1 |
| MacroF1.ScoreFromPrefix | eval_f1.py:73 | scoring from any position gives the same result on the inputs cut to the shorter length, so only the pairs `zip` forms are read |

## Left out

- `eval_rouge.py`: it only configures and calls the external `rouge_metric.Rouge` class. That library's tokenization, n-gram counting, clipping, truncation and alpha blend are not part of this model.
- The `union` variable at eval_f1.py:56: it is computed and never used.
- Reading the two JSON files and the command-line arguments (eval_f1.py:67-71, 82-97): I/O.
- The `timeit` decorator, logging, `pprint` and the percentage printout (eval_f1.py:33-47, 75): instrumentation and presentation.
- IEEE double rounding: ratios are exact rationals, so the model's scores are the values the float computation approximates.
- Python's hashing and equality of JSON values: items are compared with Dafny's value equality. The model does not capture the `TypeError` that unhashable items (nested lists or objects) would raise, nor Python's `1 == 1.0 == True` collisions inside a set.
