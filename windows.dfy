/** `create_windows`: cuts the time axis of the training data into pairs of
    an input window of `w` consecutive steps and the `h` steps that follow
    it. One step (a station-by-feature slab) is an opaque element `T`. */
module Windows {

  /** `range(T - w - h + 1)` has this many elements. */
  function WindowCount(steps: nat, w: nat, h: nat): nat {
    if steps >= w + h then steps - w - h + 1 else 0
  }

  /** The loop of `create_windows`: pair `i` has `X[i] = data[i:i+w]` and
      `y[i] = data[i+w:i+w+h]`. */
  method CreateWindows<T>(data: seq<T>, w: nat, h: nat) returns (X: seq<seq<T>>, Y: seq<seq<T>>)
    ensures |X| == |Y| == WindowCount(|data|, w, h)
    ensures forall i :: 0 <= i < |X| ==> i + w + h <= |data| && X[i] == data[i..i + w]
    ensures forall i :: 0 <= i < |Y| ==> i + w + h <= |data| && Y[i] == data[i + w..i + w + h]
  {
    X, Y := [], [];
    var count := |data| - w - h + 1;
    var start := 0;
    while start < count
      invariant 0 <= start <= WindowCount(|data|, w, h)
      invariant |X| == |Y| == start
      invariant forall i :: 0 <= i < start ==> i + w + h <= |data| && X[i] == data[i..i + w]
      invariant forall i :: 0 <= i < start ==> Y[i] == data[i + w..i + w + h]
    {
      var end := start + w;
      X := X + [data[start..end]];
      Y := Y + [data[end..end + h]];
      start := start + 1;
    }
  }

  /** The target window starts right where the input window ends: together
      they are `w + h` consecutive steps. */
  lemma Contiguous<T>(data: seq<T>, w: nat, h: nat, i: nat)
    requires i < WindowCount(|data|, w, h)
    ensures data[i..i + w] + data[i + w..i + w + h] == data[i..i + w + h]
  {
  }

  /** The last target window ends exactly at the last step, so no target runs
      past the data and no step at the end is left unused. */
  lemma LastTargetEndsAtLastStep(steps: nat, w: nat, h: nat)
    requires WindowCount(steps, w, h) > 0
    ensures (WindowCount(steps, w, h) - 1) + w + h == steps
  {
  }

  /** Every step lies in some pair's input or target window when there is at
      least one pair and the windows are not empty: the pair starting at the
      step itself, or the last pair for the final steps. */
  function CoveringPair(steps: nat, w: nat, h: nat, t: nat): (i: nat)
    requires w + h > 0 && WindowCount(steps, w, h) > 0 && t < steps
    ensures i < WindowCount(steps, w, h) && i <= t < i + w + h
  {
    if t < WindowCount(steps, w, h) then t else WindowCount(steps, w, h) - 1
  }

  /** A series shorter than one input and one target window yields no pair. */
  lemma TooShortNoWindows(steps: nat, w: nat, h: nat)
    requires steps < w + h
    ensures WindowCount(steps, w, h) == 0
  {
  }

  /** The configuration of the script: 720 months, 12 input and 26 target
      months give 683 pairs. */
  lemma ScriptWindowCount()
    ensures WindowCount(720, 12, 26) == 683
  {
  }
}
