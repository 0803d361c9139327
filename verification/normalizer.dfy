/** `softmax`: turns the model's raw outputs into probabilities. Floats are
    modelled as reals and `exp` is a parameter, so the statements below are
    the exact-arithmetic ones; rounding is not modelled. */
module Normalizer {
  import opened Wrappers

  /** What the model needs of `exp`: `exp(0) = 1` and it is never negative. */
  ghost predicate IsExp(exp: real -> real)
  {
    exp(0.0) == 1.0 && forall x :: 0.0 <= exp(x)
  }

  /** `maxOrNull()`: the largest element, or nothing for an empty array. */
  function MaxOrNull(s: seq<real>): (r: Option<real>)
    ensures r.None? <==> s == []
    ensures r.Some? ==> r.value in s
    ensures r.Some? ==> forall i :: 0 <= i < |s| ==> s[i] <= r.value
  {
    if s == [] then None
    else
      match MaxOrNull(s[1..])
      case None => Some(s[0])
      case Some(m) => Some(if m < s[0] then s[0] else m)
  }

  /** `sum()`. */
  function Sum(s: seq<real>): real
  {
    if s == [] then 0.0 else s[0] + Sum(s[1..])
  }

  /** `logits.map { exp(it - maxLogit) }`. */
  function ShiftedExps(logits: seq<real>, exp: real -> real, maxLogit: real): (r: seq<real>)
    ensures |r| == |logits|
  {
    seq(|logits|, i requires 0 <= i < |logits| => exp(logits[i] - maxLogit))
  }

  /** `exps.map { it / sumExps }`. */
  function Scale(s: seq<real>, c: real): (r: seq<real>)
    requires s != [] ==> c != 0.0
    ensures |r| == |s|
  {
    seq(|s|, i requires 0 <= i < |s| => s[i] / c)
  }

  /** The value `maxOrNull() ?: 0.0f` gives. */
  function MaxLogit(logits: seq<real>): real
  {
    match MaxOrNull(logits)
    case Some(m) => m
    case None => 0.0
  }

  /** The output has one probability per logit, each between 0 and 1, and
      an empty input gives an empty output with no division by zero:
      subtracting the maximum makes the largest term `exp(0) = 1`, so the
      denominator is at least 1. */
  function Softmax(logits: seq<real>, exp: real -> real): (r: seq<real>)
    requires IsExp(exp)
    ensures |r| == |logits|
    ensures logits == [] ==> r == []
    ensures forall i :: 0 <= i < |r| ==> 0.0 <= r[i] <= 1.0
  {
    var maxLogit := MaxLogit(logits);
    var exps := ShiftedExps(logits, exp, maxLogit);
    DenominatorAtLeastOne(logits, exp);
    var sumExps := Sum(exps);
    var r := Scale(exps, sumExps);
    assert forall i :: 0 <= i < |r| ==> 0.0 <= r[i] <= 1.0 by {
      forall i | 0 <= i < |r|
        ensures 0.0 <= r[i] <= 1.0
      {
        SumAtLeastTerm(exps, i);
        DivAtMostOne(exps[i], sumExps);
      }
    }
    r
  }

  lemma DivAtMostOne(a: real, b: real)
    requires 0.0 <= a <= b && 0.0 < b
    ensures 0.0 <= a / b <= 1.0
  {
  }

  /** A sum of non-negative terms is at least each of its terms. */
  lemma {:induction false} SumAtLeastTerm(s: seq<real>, j: nat)
    requires j < |s|
    requires forall i :: 0 <= i < |s| ==> 0.0 <= s[i]
    ensures 0.0 <= s[j] <= Sum(s)
  {
    if j > 0 {
      SumAtLeastTerm(s[1..], j - 1);
    } else if |s| > 1 {
      SumAtLeastTerm(s[1..], 0);
    }
  }

  /** The denominator `sumExps` is at least 1 for a non-empty input. */
  lemma DenominatorAtLeastOne(logits: seq<real>, exp: real -> real)
    requires IsExp(exp)
    ensures logits != [] ==> Sum(ShiftedExps(logits, exp, MaxLogit(logits))) >= 1.0
  {
    if logits != [] {
      var exps := ShiftedExps(logits, exp, MaxLogit(logits));
      var j :| 0 <= j < |logits| && logits[j] == MaxLogit(logits);
      assert exps[j] == 1.0;
      SumAtLeastTerm(exps, j);
    }
  }

  lemma {:induction false} SumScale(s: seq<real>, c: real)
    requires c != 0.0
    ensures Sum(Scale(s, c)) == Sum(s) / c
  {
    if s != [] {
      SumScale(s[1..], c);
      assert Scale(s, c)[1..] == Scale(s[1..], c);
      assert (s[0] + Sum(s[1..])) / c == s[0] / c + Sum(s[1..]) / c;
    }
  }

  /** For a non-empty input the probabilities add up to exactly 1. */
  lemma SoftmaxSumsToOne(logits: seq<real>, exp: real -> real)
    requires IsExp(exp) && logits != []
    ensures Sum(Softmax(logits, exp)) == 1.0
  {
    var exps := ShiftedExps(logits, exp, MaxLogit(logits));
    DenominatorAtLeastOne(logits, exp);
    SumScale(exps, Sum(exps));
  }

  /** `logits` with `c` added to each element. */
  function Shift(logits: seq<real>, c: real): (r: seq<real>)
    ensures |r| == |logits|
  {
    seq(|logits|, i requires 0 <= i < |logits| => logits[i] + c)
  }

  /** Adding a constant to every logit does not change the probabilities:
      the maximum moves by the same constant and cancels out. */
  lemma SoftmaxShiftInvariant(logits: seq<real>, exp: real -> real, c: real)
    requires IsExp(exp)
    ensures Softmax(Shift(logits, c), exp) == Softmax(logits, exp)
  {
    var shifted := Shift(logits, c);
    if logits != [] {
      var m := MaxLogit(logits);
      var m' := MaxLogit(shifted);
      var j :| 0 <= j < |logits| && logits[j] == m;
      var j' :| 0 <= j' < |shifted| && shifted[j'] == m';
      assert shifted[j] <= m';
      assert logits[j'] <= m;
      assert m' == m + c;
      assert ShiftedExps(shifted, exp, m') == ShiftedExps(logits, exp, m) by {
        forall i | 0 <= i < |logits|
          ensures shifted[i] - m' == logits[i] - m
        {
        }
      }
    }
  }

  /** With an increasing `exp`, a larger logit never gets a smaller
      probability, so ranking by probability is ranking by logit. */
  lemma SoftmaxPreservesOrder(logits: seq<real>, exp: real -> real, i: nat, j: nat)
    requires IsExp(exp)
    requires forall x, y :: x <= y ==> exp(x) <= exp(y)
    requires i < |logits| && j < |logits| && logits[i] <= logits[j]
    ensures Softmax(logits, exp)[i] <= Softmax(logits, exp)[j]
  {
    var exps := ShiftedExps(logits, exp, MaxLogit(logits));
    DenominatorAtLeastOne(logits, exp);
    var sum := Sum(exps);
    assert exps[i] <= exps[j];
    assert exps[i] / sum <= exps[j] / sum;
  }
}
