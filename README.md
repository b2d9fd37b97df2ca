# Evaluation bookkeeping of the splicing-model training module

The repository trains neural networks that predict splice-site usage (a
percent-spliced-in score, or a binary label) from genomic sequence. Nearly
all of it is network definition delegated to torch. The discrete logic is
in the evaluation code of the training wrapper `Lightning_module`, and
this project models that code in Dafny:

- `get_correlation` (module `Correlation`, file `correlation.dfy`). The
  label array is copied and its NaN entries are overwritten with the
  sentinel -1. For each confidence threshold t in 0, 0.1, 0.2, 0.3, the
  samples whose label lies in [t, 1 - t) form a band. Each band gets a
  Spearman value. It also gets a Pearson value, or None when the band
  holds at most one sample. The band's size is recorded too.
- `_accuracy` (module `Accuracy`, file `accuracy.dfy`). It counts the
  positions where prediction and target are both strictly above 0.5 or
  both strictly below it, then divides by the length.
- `_epoch_end` (module `EpochEnd`, file `epoch_end.dfy`). It joins the
  per-step `y_hat` and `y` collections in step order. It returns
  (None, None) when there were no steps.

Module `Values` (file `values.dfy`) holds what these share:
- `Num`, a float that is NaN or an exact real. Every comparison with NaN
  is false, as in numpy.
- `Option`, for Python's `None`.
- `Result` and `EvalError`, for the `IndexError` and `ZeroDivisionError`
  the code raises on its own inputs.

The source's numpy arrays are Dafny arrays, which the methods only read.
`get_correlation` overwrites NaN labels in place on a freshly allocated
copy (`ReplaceNaN`), so the caller's array is outside every `modifies`
clause. The loops of the source are `for` loops with invariants. Each is
proved against a specification function: `Band`, `Hits` or `Flatten`.
The lemmas then state what the source promises about those functions.

Two facts came out of the proofs:
- The sentinel is redundant. A NaN label already fails both `>= t` and
  `< 1 - t`, so the bands are the same with or without the overwrite
  (`SanitizeKeepsBands`).
- The bands are half-open. A label of exactly 1.0 is outside even the
  widest band (`ExampleBands`, `BandEdges`). Descriptions of this code
  that speak of labels "within [t, 1 - t]" do not match it. The model
  follows the code.

## Model

| member | source | states |
|---|---|---|
| Correlation.Band | src/lstm_splicing_model.py:422-424 | every index a band lists is a position of the label array |
| Correlation.BandExact | src/lstm_splicing_model.py:422-424 | an index is in the band for t if and only if its label satisfies t <= label < 1 - t; the band lists its indices in strictly ascending order |
| Correlation.BandEdges | src/lstm_splicing_model.py:422 | a label equal to t is selected (when t < 0.5); a label equal to 1 - t is never selected |
| Correlation.BandNested | src/lstm_splicing_model.py:421-422 | for t1 <= t2, the band for t2 is a subset of the band for t1 and is no longer |
| Correlation.BandsShrink | src/lstm_splicing_model.py:421-422 | the bands for 0, 0.1, 0.2 and 0.3, taken in that order, never grow |
| Correlation.NaNNeverBanded | src/lstm_splicing_model.py:415-422 | after the -1 overwrite, a NaN label is in no band for any threshold >= 0 |
| Correlation.SanitizeKeepsBands | src/lstm_splicing_model.py:415-422 | for every threshold >= 0, the bands of the overwritten labels equal the bands of the original labels |
| Correlation.ExampleBands | src/lstm_splicing_model.py:415-424 | labels [0.0, 0.5, 1.0, NaN] give the band [0, 1] for t = 0 and [1] for t = 0.3 |
| Correlation.NarrowerFits | src/lstm_splicing_model.py:425 | if the predictions can be indexed with a band, they can be indexed with every narrower band |
| Correlation.WidestFits | src/lstm_splicing_model.py:422-425 | the predictions can be indexed with the widest band exactly when no label in [0, 1) sits at a position past the end of the predictions |
| Correlation.NonZero | src/lstm_splicing_model.py:422-424 | the index loop returns the band for t of the array's labels |
| Correlation.ReplaceNaN | src/lstm_splicing_model.py:415 | in place, every NaN entry becomes -1 and every other entry is unchanged |
| Correlation.GetCorrelation | src/lstm_splicing_model.py:411-436 | IndexError exactly when a label in [0, 1) sits past the end of the predictions; otherwise three lists of length 4, where entry k holds the size of the band for the k-th threshold, the Spearman value of that band, and a Pearson value that is None exactly when the band holds at most one sample; the counts never increase; the caller's arrays are not modified |
| Accuracy.HitsCountsAgreements | src/lstm_splicing_model.py:470-475 | the loop's count is the number of positions where prediction and target are both > 0.5 or both < 0.5 |
| Accuracy.HitsBound | src/lstm_splicing_model.py:470-475 | the count never exceeds the number of positions |
| Accuracy.HitsAll | src/lstm_splicing_model.py:470-475 | the count equals the number of positions if and only if every position agrees |
| Accuracy.UndecidedNeverCounts | src/lstm_splicing_model.py:472-475 | a position where either value is exactly 0.5 or NaN is never counted, so the count is below the number of positions |
| Accuracy.HitsSymmetric | src/lstm_splicing_model.py:472-475 | swapping predictions and targets gives the same count |
| Accuracy.AccuracyOf | src/lstm_splicing_model.py:469-476 | ZeroDivisionError exactly for an empty prediction array; IndexError exactly when the target array is shorter than a non-empty prediction array; otherwise the count of agreeing positions divided by the length, a value in [0, 1] |
| EpochEnd.FlattenLength | src/lstm_splicing_model.py:508-514 | the joined collection's length is the sum of the per-step lengths |
| EpochEnd.FlattenAppend | src/lstm_splicing_model.py:508-514 | joining two runs of steps gives the two joined results, one after the other |
| EpochEnd.FlattenOrder | src/lstm_splicing_model.py:508-514 | row j of step k sits in the joined collection right after all the rows of steps 0 .. k-1 |
| EpochEnd.CollectEpoch | src/lstm_splicing_model.py:503-520 | (None, None) exactly when there are no steps; otherwise the predictions and the labels of all steps joined in step order, each as long as the sum of the per-step lengths |

## Left out

- The Spearman and Pearson values are foreign library calls on floats
  (`spearmanr`, `pearsonr`, then `round(…, 4)`). They are parameters of
  `GetCorrelation`. The model fixes which samples each one receives, not
  the numbers it returns.
- Floating point is not modelled. Labels, predictions and thresholds are
  exact reals, so 1.0 - 0.1 is exactly 0.9. The count in `_accuracy` and
  its division are exact as well.
- The per-step collections are modelled as sequences of rows along
  dimension 0. `torch.cat` shape checks on the other dimensions are not
  modelled, nor is the 0-d array that `squeeze` makes of a single sample.
- `GetCorrelation` takes one-dimensional label and prediction arrays.
  The unused copy `y_pred_np` has no effect and is not modelled.
- `evaluate`, `evaluate_site_reg` and `evaluate_site_cls` only dispatch
  on the task and print. The F1, AUROC and AUPRC scores are foreign
  library calls.
- All network modules, the losses, `training_step` and `validation_step`,
  the optimizer and learning-rate schedule, `print_on_epoch_end` (it
  returns before doing any work), logging and device placement are float
  tensor numerics or I/O and are not part of this model.
