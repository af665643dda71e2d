/**
 * Which x-axis positions of the activity chart get a label. The label text is
 * locale formatting and is not modelled: a position is either labelled or
 * blank.
 */
module SmartLabels {
  import opened Outcomes
  import Calendar

  /** The chart's default number of labels. */
  const DefaultMaxLabels := 6

  /** `Math.max(1, Math.floor(n / maxLabels))`; `None` stands for the
      infinite step a zero `maxLabels` gives, and a negative one gives 1. */
  function LabelStep(n: nat, maxLabels: int): (step: Option<nat>)
    ensures step.Some? ==> step.value >= 1
    ensures step.None? <==> maxLabels == 0
  {
    if maxLabels == 0 then None
    else if maxLabels < 0 then Some(1)
    else Some(if n / maxLabels < 1 then 1 else n / maxLabels)
  }

  /** Position i of n is labelled when it is the first, the last, or a
      multiple of the step (only 0 is a multiple of an infinite step). */
  predicate Labelled(i: nat, n: nat, step: Option<nat>)
    requires step.Some? ==> step.value >= 1
  {
    i == 0 || i == n - 1 || (step.Some? && i % step.value == 0)
  }

  /** `generateSmartLabels`, as a mask of the positions that get a label. */
  method SmartLabelMask(n: nat, maxLabels: int) returns (mask: seq<bool>)
    ensures |mask| == n
    ensures n > 0 ==> mask[0] && mask[n - 1]
    ensures n <= maxLabels ==> forall i :: 0 <= i < n ==> mask[i]
    ensures n > maxLabels ==> forall i :: 0 <= i < n ==> (mask[i] <==> Labelled(i, n, LabelStep(n, maxLabels)))
  {
    if n == 0 {
      return [];
    }
    if n <= maxLabels {
      return seq(n, i => true);
    }
    var step := LabelStep(n, maxLabels);
    mask := [];
    var i := 0;
    while i < n
      invariant 0 <= i <= n && |mask| == i
      invariant forall k :: 0 <= k < i ==> (mask[k] <==> Labelled(k, n, step))
    {
      mask := mask + [i == 0 || i == n - 1 || (step.Some? && i % step.value == 0)];
      i := i + 1;
    }
  }

  /** With a positive maximum, no run of blank positions reaches the step:
      every position has a labelled one less than a step before it. */
  lemma LabelGaps(n: nat, maxLabels: int, i: nat)
    requires maxLabels > 0 && n > maxLabels && i < n
    ensures var step := LabelStep(n, maxLabels).value;
      exists j: nat :: i - step < j <= i && Labelled(j, n, LabelStep(n, maxLabels))
  {
    var step := LabelStep(n, maxLabels).value;
    var q := i / step;
    var j: nat := step * q;
    Calendar.DivUnique(i, step, q);
    Calendar.DivUnique(j, step, q);
    assert i - step < j <= i && Labelled(j, n, LabelStep(n, maxLabels));
  }

  /** The chart calls `generateSmartLabels` without a maximum, so the default
      of six applies: with more than six points the step is `n / 6`, and every
      point has a labelled one less than a step before it. */
  lemma DefaultLabelGaps(n: nat, i: nat)
    requires n > DefaultMaxLabels && i < n
    ensures LabelStep(n, DefaultMaxLabels) == Some(n / DefaultMaxLabels)
    ensures exists j: nat :: i - n / DefaultMaxLabels < j <= i && Labelled(j, n, Some(n / DefaultMaxLabels))
  {
    LabelGaps(n, DefaultMaxLabels, i);
  }
}
