/** The classification accuracy of the training module (`_accuracy`):
    the share of positions where prediction and target fall strictly on
    the same side of 0.5. */
module Accuracy {
  import opened Values

  /** The decision threshold. */
  const Half: real := 0.5

  /** Prediction `p` and target `y` agree: both strictly above 0.5 or both
      strictly below it. A NaN or a value of exactly 0.5 agrees with nothing. */
  predicate Agrees(p: Num, y: Num) {
    (Above(y, Half) && Above(p, Half)) || (Below(y, Half) && Below(p, Half))
  }

  /** The number of agreeing positions among the first n. */
  function Hits(result: seq<Num>, target: seq<Num>, n: nat): nat
    requires n <= |result| && n <= |target|
  {
    if n == 0 then 0
    else Hits(result, target, n - 1) + (if Agrees(result[n - 1], target[n - 1]) then 1 else 0)
  }

  /** The agreeing positions among the first n, as a set. */
  ghost function AgreeSet(result: seq<Num>, target: seq<Num>, n: nat): set<nat>
    requires n <= |result| && n <= |target|
  {
    set i: nat | i < n && Agrees(result[i], target[i])
  }

  /** The count is the size of the set of agreeing positions: each position
      is counted once, and only when it agrees. */
  lemma {:induction false} HitsCountsAgreements(result: seq<Num>, target: seq<Num>, n: nat)
    requires n <= |result| && n <= |target|
    ensures Hits(result, target, n) == |AgreeSet(result, target, n)|
  {
    if n > 0 {
      HitsCountsAgreements(result, target, n - 1);
      var prev := AgreeSet(result, target, n - 1);
      if Agrees(result[n - 1], target[n - 1]) {
        assert AgreeSet(result, target, n) == prev + {n - 1};
      } else {
        assert AgreeSet(result, target, n) == prev;
      }
    }
  }

  /** At most every position agrees. */
  lemma {:induction false} HitsBound(result: seq<Num>, target: seq<Num>, n: nat)
    requires n <= |result| && n <= |target|
    ensures Hits(result, target, n) <= n
  {
    if n > 0 {
      HitsBound(result, target, n - 1);
    }
  }

  /** Every position agrees exactly when the count reaches n. */
  lemma {:induction false} HitsAll(result: seq<Num>, target: seq<Num>, n: nat)
    requires n <= |result| && n <= |target|
    ensures Hits(result, target, n) == n <==> forall i :: 0 <= i < n ==> Agrees(result[i], target[i])
  {
    if n > 0 {
      HitsAll(result, target, n - 1);
      HitsBound(result, target, n - 1);
    }
  }

  /** A position where either side is NaN or exactly 0.5 is never counted,
      so the count stays below n. */
  lemma {:induction false} UndecidedNeverCounts(result: seq<Num>, target: seq<Num>, n: nat, i: nat)
    requires n <= |result| && n <= |target| && i < n
    requires result[i] == Real(Half) || target[i] == Real(Half) || result[i].NaN? || target[i].NaN?
    ensures Hits(result, target, n) < n
  {
    HitsAll(result, target, n);
    HitsBound(result, target, n);
  }

  /** The rule is symmetric: swapping predictions and targets changes no count. */
  lemma {:induction false} HitsSymmetric(result: seq<Num>, target: seq<Num>, n: nat)
    requires n <= |result| && n <= |target|
    ensures Hits(result, target, n) == Hits(target, result, n)
  {
    if n > 0 {
      HitsSymmetric(result, target, n - 1);
    }
  }

  /** A count of at most n, divided by a positive n, lies in [0, 1]. */
  lemma ShareInUnit(c: nat, n: nat)
    requires 0 < n && c <= n
    ensures 0.0 <= c as real / n as real <= 1.0
  {
    var q := c as real / n as real;
    assert q * n as real == c as real;
  }

  /** `_accuracy(result, target)`: the loop reads `target[i]` for every
      position of `result`, so a shorter `target` raises IndexError; an
      empty `result` divides by zero. Otherwise the result is the share of
      agreeing positions, which lies in [0, 1]. */
  method AccuracyOf(result: array<Num>, target: array<Num>) returns (r: Result<real>)
    ensures r == Failure(ZeroDivisionError) <==> result.Length == 0
    ensures r == Failure(IndexError) <==> 0 < result.Length && target.Length < result.Length
    ensures r.Success? ==>
      r.value == Hits(result[..], target[..], result.Length) as real / result.Length as real
    ensures r.Success? ==> 0.0 <= r.value <= 1.0
  {
    var count := 0;
    for i := 0 to result.Length
      invariant i <= target.Length
      invariant count == Hits(result[..], target[..], i)
    {
      if i >= target.Length {
        return Failure(IndexError);
      }
      if Above(target[i], Half) && Above(result[i], Half) {
        count := count + 1;
      } else if Below(target[i], Half) && Below(result[i], Half) {
        count := count + 1;
      }
    }
    if result.Length == 0 {
      return Failure(ZeroDivisionError);
    }
    HitsBound(result[..], target[..], result.Length);
    var n := result.Length as real;
    var q := count as real / n;
    ShareInUnit(count, result.Length);
    r := Success(q);
  }
}
