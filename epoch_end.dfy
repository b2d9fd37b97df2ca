/** The epoch-end accumulator of the training module (`_epoch_end`): the
    per-step predictions and labels are joined, step by step, into one
    prediction collection and one label collection. A step's tensors are
    modelled as the sequence of their rows along dimension 0. */
module EpochEnd {
  import opened Values

  /** What one training or validation step hands back: its predictions
      (`y_hat`) and its labels (`y`). */
  datatype StepOutput<T> = StepOutput(yHat: seq<T>, y: seq<T>)

  /** The parts joined in order. */
  function Flatten<T>(parts: seq<seq<T>>): seq<T>
  {
    if parts == [] then [] else Flatten(parts[..|parts| - 1]) + parts[|parts| - 1]
  }

  /** The total number of rows in the parts. */
  function TotalLength<T>(parts: seq<seq<T>>): nat
  {
    if parts == [] then 0 else TotalLength(parts[..|parts| - 1]) + |parts[|parts| - 1]|
  }

  /** The prediction part of every step, in step order. */
  function Predictions<T>(steps: seq<StepOutput<T>>): (parts: seq<seq<T>>)
    ensures |parts| == |steps|
  {
    seq(|steps|, i requires 0 <= i < |steps| => steps[i].yHat)
  }

  /** The label part of every step, in step order. */
  function Labels<T>(steps: seq<StepOutput<T>>): (parts: seq<seq<T>>)
    ensures |parts| == |steps|
  {
    seq(|steps|, i requires 0 <= i < |steps| => steps[i].y)
  }

  /** Joining loses and adds no row: the length is the sum of the lengths. */
  lemma {:induction false} FlattenLength<T>(parts: seq<seq<T>>)
    ensures |Flatten(parts)| == TotalLength(parts)
    decreases |parts|
  {
    if parts != [] {
      FlattenLength(parts[..|parts| - 1]);
    }
  }

  /** Joining two runs of steps joins their results. */
  lemma {:induction false} FlattenAppend<T>(a: seq<seq<T>>, b: seq<seq<T>>)
    ensures Flatten(a + b) == Flatten(a) + Flatten(b)
    decreases |b|
  {
    if b == [] {
      assert a + b == a;
    } else {
      var n := |b| - 1;
      assert (a + b)[..|a + b| - 1] == a + b[..n];
      FlattenAppend(a, b[..n]);
    }
  }

  /** Step order is kept: row j of part k sits right after all the rows of
      the parts before it. */
  lemma {:induction false} FlattenOrder<T>(parts: seq<seq<T>>, k: nat, j: nat)
    requires k < |parts| && j < |parts[k]|
    ensures TotalLength(parts[..k]) + j < |Flatten(parts)|
    ensures Flatten(parts)[TotalLength(parts[..k]) + j] == parts[k][j]
  {
    assert parts == parts[..k] + [parts[k]] + parts[k + 1..];
    FlattenAppend(parts[..k] + [parts[k]], parts[k + 1..]);
    FlattenAppend(parts[..k], [parts[k]]);
    assert Flatten([parts[k]]) == parts[k] by {
      assert [parts[k]][..0] == [];
    }
    FlattenLength(parts[..k]);
  }

  /** `_epoch_end(step_outputs)`: no steps gives (None, None); otherwise the
      first step's collections start the accumulators and every later step
      is appended, so the result is every step's rows in step order. */
  method CollectEpoch<T>(steps: seq<StepOutput<T>>) returns (yHat: Option<seq<T>>, y: Option<seq<T>>)
    ensures steps == [] <==> yHat == None
    ensures steps == [] <==> y == None
    ensures steps != [] ==> yHat == Some(Flatten(Predictions(steps))) && y == Some(Flatten(Labels(steps)))
    ensures steps != [] ==>
      |yHat.value| == TotalLength(Predictions(steps)) && |y.value| == TotalLength(Labels(steps))
  {
    ghost var preds, labels := Predictions(steps), Labels(steps);
    var yCollection: Option<seq<T>> := None;
    var yHatCollection: Option<seq<T>> := None;
    for i := 0 to |steps|
      invariant i == 0 ==> yCollection.None? && yHatCollection.None?
      invariant i > 0 ==> yHatCollection == Some(Flatten(preds[..i])) && yCollection == Some(Flatten(labels[..i]))
    {
      assert preds[..i + 1][..i] == preds[..i] && labels[..i + 1][..i] == labels[..i];
      assert Flatten(preds[..i + 1]) == Flatten(preds[..i]) + steps[i].yHat;
      assert Flatten(labels[..i + 1]) == Flatten(labels[..i]) + steps[i].y;
      if yCollection.None? {
        assert preds[..0] == [] && labels[..0] == [];
        assert Flatten(preds[..0]) + steps[0].yHat == steps[0].yHat;
        assert Flatten(labels[..0]) + steps[0].y == steps[0].y;
        yCollection := Some(steps[i].y);
        yHatCollection := Some(steps[i].yHat);
      } else {
        yCollection := Some(yCollection.value + steps[i].y);
        yHatCollection := Some(yHatCollection.value + steps[i].yHat);
      }
    }
    assert preds[..|steps|] == preds && labels[..|steps|] == labels;
    FlattenLength(preds);
    FlattenLength(labels);
    yHat, y := yHatCollection, yCollection;
  }
}
