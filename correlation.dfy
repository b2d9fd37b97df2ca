/** The regression evaluation of the training module (`get_correlation`):
    NaN labels are replaced by the sentinel -1 on a copy of the label array,
    and for each label-confidence threshold t the samples whose label lies in
    [t, 1 - t) form a band. Each band gets a Spearman value, a Pearson value
    (or None when the band holds at most one sample) and its size.
    The two correlation statistics are foreign library calls and are passed
    in as functions of the band's labels and predictions. */
module Correlation {
  import opened Values

  /** The confidence thresholds, in the order the bands are reported. */
  const Thresholds: seq<real> := [0.0, 0.1, 0.2, 0.3]

  /** A correlation statistic (with its rounding) over the labels and the
      predictions of one band. */
  type Statistic = (seq<Num>, seq<Num>) -> Num

  /** The three lists `get_correlation` returns, one entry per threshold. */
  datatype Report = Report(rho: seq<Num>, pearson: seq<Option<Num>>, counts: seq<nat>)

  /** The band test `y_true >= t and y_true < 1 - t`, NaN failing both. */
  predicate InBand(x: Num, t: real) {
    AtLeast(x, t) && Below(x, 1.0 - t)
  }

  /** The label array after NaN entries are overwritten with -1. */
  function Sanitize(y: seq<Num>): seq<Num> {
    seq(|y|, i requires 0 <= i < |y| => if y[i].NaN? then Real(-1.0) else y[i])
  }

  /** The indices selected for threshold t, in the order `np.nonzero`
      lists them. */
  function Band(labels: seq<Num>, t: real): (idx: seq<nat>)
    ensures forall j :: 0 <= j < |idx| ==> idx[j] < |labels|
  {
    if |labels| == 0 then []
    else
      var n := |labels| - 1;
      Band(labels[..n], t) + (if InBand(labels[n], t) then [n] else [])
  }

  /** The entries of `s` at the positions `idx` (numpy fancy indexing). */
  function Gather(s: seq<Num>, idx: seq<nat>): (r: seq<Num>)
    requires forall j :: 0 <= j < |idx| ==> idx[j] < |s|
    ensures |r| == |idx|
  {
    seq(|idx|, j requires 0 <= j < |idx| => s[idx[j]])
  }

  /** True when numpy can index `s` with every position of `idx`. */
  predicate Fits(s: seq<Num>, idx: seq<nat>) {
    forall j | 0 <= j < |idx| :: idx[j] < |s|
  }

  /** A band is exactly the ascending list of the indices whose label
      passes the band test. */
  lemma {:induction false} BandExact(labels: seq<Num>, t: real)
    ensures forall i :: i in Band(labels, t) <==> 0 <= i < |labels| && InBand(labels[i], t)
    ensures forall j, k :: 0 <= j < k < |Band(labels, t)| ==> Band(labels, t)[j] < Band(labels, t)[k]
    decreases |labels|
  {
    if |labels| > 0 {
      var n := |labels| - 1;
      var prefix := labels[..n];
      BandExact(prefix, t);
      assert forall i :: 0 <= i < n ==> prefix[i] == labels[i];
    }
  }

  /** The bounds of a band: a label equal to t is selected (for a
      non-empty interval), a label equal to 1 - t is not. */
  lemma BandEdges(labels: seq<Num>, t: real, i: nat)
    requires i < |labels|
    ensures labels[i] == Real(t) && t < 0.5 ==> i in Band(labels, t)
    ensures labels[i] == Real(1.0 - t) ==> i !in Band(labels, t)
  {
    BandExact(labels, t);
  }

  /** A stricter threshold selects a subset of the samples, so the band
      is no longer. */
  lemma {:induction false} BandNested(labels: seq<Num>, t1: real, t2: real)
    requires t1 <= t2
    ensures forall i :: i in Band(labels, t2) ==> i in Band(labels, t1)
    ensures |Band(labels, t2)| <= |Band(labels, t1)|
    decreases |labels|
  {
    BandExact(labels, t1);
    BandExact(labels, t2);
    if |labels| > 0 {
      BandNested(labels[..|labels| - 1], t1, t2);
    }
  }

  /** A NaN label never lands in any band once it is replaced by -1. */
  lemma NaNNeverBanded(y: seq<Num>, t: real, i: nat)
    requires 0.0 <= t && i < |y| && y[i].NaN?
    ensures i !in Band(Sanitize(y), t)
  {
    BandExact(Sanitize(y), t);
  }

  /** The sentinel changes no band: a NaN label already fails the band
      test, exactly as the sentinel -1 does for every threshold >= 0. */
  lemma {:induction false} SanitizeKeepsBands(y: seq<Num>, t: real)
    requires 0.0 <= t
    ensures Band(Sanitize(y), t) == Band(y, t)
    decreases |y|
  {
    if |y| > 0 {
      var n := |y| - 1;
      assert Sanitize(y)[..n] == Sanitize(y[..n]);
      SanitizeKeepsBands(y[..n], t);
    }
  }

  /** The four reported bands shrink threshold by threshold. */
  lemma BandsShrink(labels: seq<Num>)
    ensures forall k :: 0 < k < |Thresholds| ==>
      |Band(labels, Thresholds[k])| <= |Band(labels, Thresholds[k - 1])|
  {
    BandNested(labels, 0.0, 0.1);
    BandNested(labels, 0.1, 0.2);
    BandNested(labels, 0.2, 0.3);
  }

  /** Labels [0.0, 0.5, 1.0, NaN]: the widest band is [0, 1) and drops both
      the label 1.0 and the NaN; the narrowest keeps only the label 0.5. */
  lemma ExampleBands()
    ensures Band(Sanitize([Real(0.0), Real(0.5), Real(1.0), NaN]), 0.0) == [0, 1]
    ensures Band(Sanitize([Real(0.0), Real(0.5), Real(1.0), NaN]), 0.3) == [1]
  {
    var y := [Real(0.0), Real(0.5), Real(1.0), NaN];
    var s := Sanitize(y);
    assert s == [Real(0.0), Real(0.5), Real(1.0), Real(-1.0)];
    assert s[..3] == [Real(0.0), Real(0.5), Real(1.0)];
    assert s[..3][..2] == [Real(0.0), Real(0.5)];
    assert s[..3][..2][..1] == [Real(0.0)];
    assert s[..3][..2][..1][..0] == [];
    assert Band(s[..3][..2][..1], 0.0) == [0];
    assert Band(s[..3][..2], 0.0) == [0, 1];
    assert Band(s[..3], 0.0) == [0, 1];
    assert Band(s[..3][..2][..1], 0.3) == [];
    assert Band(s[..3][..2], 0.3) == [1];
    assert Band(s[..3], 0.3) == [1];
  }

  /** `y_true[np.isnan(y_true)] = -1` applied to the copy `labels`. */
  method ReplaceNaN(labels: array<Num>)
    modifies labels
    ensures labels[..] == Sanitize(old(labels[..]))
  {
    for i := 0 to labels.Length
      invariant forall j :: 0 <= j < i ==> labels[j] == Sanitize(old(labels[..]))[j]
      invariant forall j :: i <= j < labels.Length ==> labels[j] == old(labels[j])
    {
      if labels[i].NaN? {
        labels[i] := Real(-1.0);
      }
    }
  }

  /** `np.nonzero(np.logical_and(labels >= t, labels < 1 - t))[0]`. */
  method NonZero(labels: array<Num>, t: real) returns (idx: seq<nat>)
    ensures idx == Band(labels[..], t)
  {
    idx := [];
    for i := 0 to labels.Length
      invariant idx == Band(labels[..i], t)
    {
      assert labels[..i + 1][..i] == labels[..i];
      if InBand(labels[i], t) {
        idx := idx + [i];
      }
    }
    assert labels[..labels.Length] == labels[..];
  }

  /** If the predictions can be indexed with a band, they can be indexed
      with every narrower band. */
  lemma NarrowerFits(labels: seq<Num>, preds: seq<Num>, t1: real, t2: real)
    requires t1 <= t2 && Fits(preds, Band(labels, t1))
    ensures Fits(preds, Band(labels, t2))
  {
    var wide, narrow := Band(labels, t1), Band(labels, t2);
    BandNested(labels, t1, t2);
    forall j | 0 <= j < |narrow| ensures narrow[j] < |preds| {
      assert narrow[j] in wide;
      var x :| 0 <= x < |wide| && wide[x] == narrow[j];
    }
  }

  /** The predictions can be indexed with the widest band exactly when no
      label at a position past their end lies in [0, 1). */
  lemma WidestFits(y: seq<Num>, preds: seq<Num>)
    ensures Fits(preds, Band(Sanitize(y), 0.0)) <==>
      !exists i :: 0 <= i < |y| && |preds| <= i && InBand(y[i], 0.0)
  {
    var wide := Band(Sanitize(y), 0.0);
    SanitizeKeepsBands(y, 0.0);
    BandExact(y, 0.0);
    if !Fits(preds, wide) {
      var j :| 0 <= j < |wide| && |preds| <= wide[j];
      assert wide[j] in wide;
    }
  }

  /** What `get_correlation` reports for one threshold t: the band can index
      the predictions, `count` is its size, `rho` is the Spearman value of the
      band, and `pear` is None exactly when the band holds at most one sample
      and the Pearson value of the band otherwise. */
  predicate ReportsBand(labels: seq<Num>, preds: seq<Num>, t: real, spearman: Statistic, pearson: Statistic,
                        rho: Num, pear: Option<Num>, count: nat)
  {
    var band := Band(labels, t);
    Fits(preds, band) &&
    count == |band| &&
    rho == spearman(Gather(labels, band), Gather(preds, band)) &&
    (pear.None? <==> |band| <= 1) &&
    (pear.Some? ==> pear.value == pearson(Gather(labels, band), Gather(preds, band)))
  }

  /** `get_correlation(y_true, y_pred)`. The caller's arrays are only read:
      the NaN overwrite goes to a fresh copy. Indexing `y_pred` with a band
      fails exactly when a label of the widest band sits at a position
      `y_pred` does not have; the narrower bands are subsets of it. */
  method GetCorrelation(yTrue: array<Num>, yPred: array<Num>, spearman: Statistic, pearson: Statistic)
    returns (r: Result<Report>)
    ensures r.Failure? <==>
      exists i :: 0 <= i < yTrue.Length && yPred.Length <= i && InBand(yTrue[i], 0.0)
    ensures r.Failure? ==> r.error == IndexError
    ensures r.Success? ==>
      |r.value.rho| == |Thresholds| && |r.value.pearson| == |Thresholds| &&
      |r.value.counts| == |Thresholds|
    ensures r.Success? ==> forall k :: 0 <= k < |Thresholds| ==>
      ReportsBand(Sanitize(yTrue[..]), yPred[..], Thresholds[k], spearman, pearson,
                  r.value.rho[k], r.value.pearson[k], r.value.counts[k])
    ensures r.Success? ==> forall k :: 0 < k < |Thresholds| ==> r.value.counts[k] <= r.value.counts[k - 1]
  {
    var labels := new Num[yTrue.Length](i reads yTrue => if 0 <= i < yTrue.Length then yTrue[i] else NaN);
    assert labels[..] == yTrue[..];
    ReplaceNaN(labels);
    ghost var clean := labels[..];
    ghost var preds := yPred[..];
    ghost var widest := Band(clean, 0.0);
    WidestFits(yTrue[..], preds);

    var rho: seq<Num> := [];
    var pears: seq<Option<Num>> := [];
    var counts: seq<nat> := [];
    for k := 0 to |Thresholds|
      invariant labels[..] == clean
      invariant |rho| == k && |pears| == k && |counts| == k
      invariant k > 0 ==> Fits(preds, widest)
      invariant forall m :: 0 <= m < k ==>
        ReportsBand(clean, preds, Thresholds[m], spearman, pearson, rho[m], pears[m], counts[m])
      invariant forall m :: 0 < m < k ==> counts[m] <= counts[m - 1]
    {
      var t := Thresholds[k];
      var idx := NonZero(labels, t);
      if k > 0 {
        NarrowerFits(clean, preds, 0.0, t);
        BandNested(clean, Thresholds[k - 1], t);
      }
      if !Fits(yPred[..], idx) {
        assert k == 0;
        return Failure(IndexError);
      }
      var bandLabels := Gather(labels[..], idx);
      var bandPreds := Gather(yPred[..], idx);
      var s := spearman(bandLabels, bandPreds);
      var p := if |bandLabels| > 1 then Some(pearson(bandLabels, bandPreds)) else None;
      rho, pears, counts := rho + [s], pears + [p], counts + [|idx|];
    }
    r := Success(Report(rho, pears, counts));
  }
}
