/** The ProgressBar component: the progress it is given is clamped to
    [0, 100] before it is shown, both as the percentage label and as the
    width of the filled bar. */
module ProgressBar {
  import opened Queue

  /** `Math.min` on two numbers. */
  function Min(a: real, b: real): real
  {
    if a <= b then a else b
  }

  /** `Math.max` on two numbers. */
  function Max(a: real, b: real): real
  {
    if a >= b then a else b
  }

  /** `clampedProgress`: the input when it lies in [0, 100], 0 below that
      range and 100 above it. */
  function Clamp(progress: real): (clamped: real)
    ensures 0.0 <= clamped <= 100.0
    ensures 0.0 <= progress <= 100.0 ==> clamped == progress
    ensures progress < 0.0 ==> clamped == 0.0
    ensures progress > 100.0 ==> clamped == 100.0
  {
    Max(0.0, Min(100.0, progress))
  }

  /** Clamping a clamped value changes nothing. */
  lemma ClampIdempotent(progress: real)
    ensures Clamp(Clamp(progress)) == Clamp(progress)
  {
  }

  /** More progress never shows as less. */
  lemma ClampMonotonic(p: real, q: real)
    requires p <= q
    ensures Clamp(p) <= Clamp(q)
  {
  }

  /** What the bar shows: the percentage in the label (before rounding) and
      the width of the filled part, in percent. */
  datatype BarView = BarView(percent: real, width: real)

  /** The rendered bar: label and width both come from the clamped value,
      never from the raw one, so both stay within [0, 100]. */
  function Render(progress: real): (view: BarView)
    ensures view.percent == view.width == Clamp(progress)
    ensures 0.0 <= view.width <= 100.0
  {
    var clamped := Clamp(progress);
    BarView(clamped, clamped)
  }

  /** The overall progress of a queue whose entries all lie in [0, 100] is
      shown unclamped. */
  lemma OverallProgressShownAsIs(files: seq<ConversionFile>)
    requires forall i :: 0 <= i < |files| ==> files[i].progress <= 100
    ensures Render(OverallProgress(files)).width == OverallProgress(files)
  {
    OverallProgressBounded(files);
  }
}
