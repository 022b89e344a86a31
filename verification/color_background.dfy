/** BackgroundRemover: a grey-level background learnt on demand (a left
    click), an exponential moving average of the frames it is given, and a
    foreground mask of the pixels that differ from it by more than a
    threshold. Frames are flat row-major pixel sequences. */
module ColorBackground {
  import opened Optional
  import opened Events

  /** Grey-level difference above which a pixel is foreground (strict). */
  const Threshold: int := 30
  /** Weight of the new frame in the moving average. */
  const LearningRate: real := 0.5
  const ForegroundLabel: int := 255

  datatype Color = Color(b: int, g: int, r: int)

  const Black: Color := Color(0, 0, 0)

  /** The learnt background: the float accumulator (bg32) and its 8-bit copy
      (bg) which the subtraction uses. */
  datatype Model = Model(acc: seq<real>, gray: seq<int>)

  /** The effect's state: no model until the first update. */
  datatype Remover = Remover(model: Option<Model>, needUpdate: bool)

  const InitialRemover: Remover := Remover(None, false)

  function Abs(n: int): int {
    if n < 0 then -n else n
  }

  /** Whether n is a rounding of x to nearest with ties to even. */
  predicate RoundsTo(x: real, n: int) {
    && -(0.5) <= n as real - x <= 0.5
    && ((n as real - x == 0.5 || x - n as real == 0.5) ==> n % 2 == 0)
  }

  /** cvRound: round to nearest, ties to even. */
  function RoundHalfEven(x: real): (n: int)
    ensures RoundsTo(x, n)
  {
    var f := x.Floor;
    var frac := x - f as real;
    if frac < 0.5 then f
    else if frac > 0.5 then f + 1
    else if f % 2 == 0 then f else f + 1
  }

  /** saturate_cast<uchar> */
  function Saturate(n: int): (b: int)
    ensures 0 <= b <= 255
    ensures 0 <= n <= 255 ==> b == n
  {
    if n < 0 then 0 else if n > 255 then 255 else n
  }

  /** convertTo(CV_8U) of one accumulator value. */
  function ToByte(x: real): (b: int)
    ensures 0 <= b <= 255
    ensures 0.0 <= x <= 255.0 ==> RoundsTo(x, b)
  {
    Saturate(RoundHalfEven(x))
  }

  predicate IsByteImage(g: seq<int>) {
    forall i :: 0 <= i < |g| ==> 0 <= g[i] <= 255
  }

  /** The thresholded absolute difference, before the closing. */
  function ThresholdMask(gray: seq<int>, bg: seq<int>): (m: seq<int>)
    requires |gray| == |bg|
    ensures |m| == |gray|
    ensures forall i :: 0 <= i < |m| ==> m[i] == 0 || m[i] == ForegroundLabel
    ensures forall i :: 0 <= i < |m| ==> (m[i] == ForegroundLabel <==> Abs(gray[i] - bg[i]) > Threshold)
  {
    seq(|gray|, i requires 0 <= i < |gray| =>
      if Abs(gray[i] - bg[i]) > Threshold then ForegroundLabel else 0)
  }

  /** `close` stands for the 15x15 morphological closing; it keeps the size. */
  ghost predicate SizePreserving(close: seq<int> -> seq<int>) {
    forall m: seq<int> :: |close(m)| == |m|
  }

  /** substract_background: an all-black frame while nothing is learnt;
      otherwise the frame's pixels where the closed mask is set, black
      elsewhere. `gray` is cvtColor(frame, GRAY). */
  function Subtract(model: Option<Model>, frame: seq<Color>, gray: seq<int>,
                    close: seq<int> -> seq<int>): (out: seq<Color>)
    requires |gray| == |frame|
    requires model.Some? ==> |model.value.gray| == |frame|
    requires SizePreserving(close)
    ensures |out| == |frame|
    ensures forall i :: 0 <= i < |frame| ==> out[i] == frame[i] || out[i] == Black
    ensures model.None? ==> forall i :: 0 <= i < |frame| ==> out[i] == Black
    ensures model.Some? ==>
              var mask := close(ThresholdMask(gray, model.value.gray));
              forall i :: 0 <= i < |frame| ==>
                (mask[i] != 0 ==> out[i] == frame[i]) && (mask[i] == 0 ==> out[i] == Black)
  {
    if model.None? then seq(|frame|, i => Black)
    else
      var mask := close(ThresholdMask(gray, model.value.gray));
      seq(|frame|, i requires 0 <= i < |frame| => if mask[i] != 0 then frame[i] else Black)
  }

  /** update_background: seed from the grey frame, or blend it in with weight
      LearningRate; then refresh the 8-bit copy. */
  function Update(model: Option<Model>, gray: seq<int>): (m: Model)
    requires model.Some? ==> |model.value.acc| == |gray|
    ensures |m.acc| == |gray| && |m.gray| == |gray|
    ensures IsByteImage(m.gray)
    ensures forall i :: 0 <= i < |gray| ==> m.gray[i] == ToByte(m.acc[i])
  {
    var acc :=
      if model.None? then seq(|gray|, i requires 0 <= i < |gray| => gray[i] as real)
      else seq(|gray|, i requires 0 <= i < |gray| =>
             (1.0 - LearningRate) * model.value.acc[i] + LearningRate * gray[i] as real);
    Model(acc, seq(|gray|, i requires 0 <= i < |gray| => ToByte(acc[i])))
  }

  /** What a state supports: its model (if any) has the frame's size. */
  predicate Fits(s: Remover, n: nat) {
    s.model.Some? ==> |s.model.value.acc| == n && |s.model.value.gray| == n
  }

  /** BackgroundRemover::fn: subtract with the current model, then update it
      if a click asked for it, clearing the request. */
  function Tick(s: Remover, frame: seq<Color>, gray: seq<int>, close: seq<int> -> seq<int>)
      : (r: (seq<Color>, Remover))
    requires |gray| == |frame| && Fits(s, |frame|)
    requires SizePreserving(close)
    ensures r.0 == Subtract(s.model, frame, gray, close)
    ensures !r.1.needUpdate
    ensures s.needUpdate ==> r.1.model == Some(Update(s.model, gray))
    ensures !s.needUpdate ==> r.1.model == s.model
    ensures Fits(r.1, |frame|)
  {
    var out := Subtract(s.model, frame, gray, close);
    if s.needUpdate then (out, Remover(Some(Update(s.model, gray)), false))
    else (out, s)
  }

  /** mouse_cb: a left click requests an update; other events do nothing. */
  function Mouse(s: Remover, event: MouseEvent): (r: Remover)
    ensures r.model == s.model
    ensures r.needUpdate <==> event == LeftDown || s.needUpdate
  {
    if event == LeftDown then s.(needUpdate := true) else s
  }

  /** Rounding is exact on integers. */
  lemma RoundIntegral(n: int)
    ensures RoundHalfEven(n as real) == n
  {
  }

  /** The rounding is the only one to nearest with ties to even. */
  lemma RoundHalfEvenUnique(x: real, n: int)
    requires RoundsTo(x, n)
    ensures n == RoundHalfEven(x)
  {
    var m := RoundHalfEven(x);
    if n == m + 1 || m == n + 1 {
      assert false;
    }
  }

  /** The 0.5-rate average does produce ties: a background of 100 updated
      with a frame of 101 averages to 100.5, and its 8-bit copy rounds to
      the even 100; 101 and 102 average to 101.5, which rounds up to 102. */
  lemma AverageTiesRoundToEven()
    ensures Update(Some(Model([100.0], [100])), [101]).gray == [100]
    ensures Update(Some(Model([101.0], [101])), [102]).gray == [102]
  {
    var low := Update(Some(Model([100.0], [100])), [101]);
    assert low.acc[0] == 100.5;
    RoundHalfEvenUnique(100.5, 100);
    assert low.gray[0] == ToByte(100.5) == 100;
    var high := Update(Some(Model([101.0], [101])), [102]);
    assert high.acc[0] == 101.5;
    RoundHalfEvenUnique(101.5, 102);
    assert high.gray[0] == ToByte(101.5) == 102;
  }

  /** A morphological closing never clears a set pixel. */
  ghost predicate Extensive(close: seq<int> -> seq<int>) {
    forall m: seq<int>, i :: 0 <= i < |m| && m[i] != 0 ==> 0 <= i < |close(m)| && close(m)[i] != 0
  }

  /** Whatever the closing adds, a learnt background keeps the colour of every
      pixel whose grey level differs from it by more than the threshold. */
  lemma SubtractKeepsForeground(m: Model, frame: seq<Color>, gray: seq<int>,
                                close: seq<int> -> seq<int>, i: int)
    requires |gray| == |frame| && |m.gray| == |frame|
    requires SizePreserving(close) && Extensive(close)
    requires 0 <= i < |frame| && Abs(gray[i] - m.gray[i]) > Threshold
    ensures Subtract(Some(m), frame, gray, close)[i] == frame[i]
  {
    var t := ThresholdMask(gray, m.gray);
    assert t[i] == ForegroundLabel;
    assert close(t)[i] != 0;
  }

  /** The first update copies the grey frame into both the accumulator and
      the 8-bit background. */
  lemma FirstUpdateSeeds(gray: seq<int>)
    requires IsByteImage(gray)
    ensures Update(None, gray).acc == seq(|gray|, i requires 0 <= i < |gray| => gray[i] as real)
    ensures Update(None, gray).gray == gray
  {
    var m := Update(None, gray);
    forall i | 0 <= i < |gray| ensures m.gray[i] == gray[i] {
      assert m.acc[i] == gray[i] as real;
      assert m.gray[i] == ToByte(m.acc[i]);
      RoundIntegral(gray[i]);
    }
  }

  /** Each later update halves the gap between the accumulator and the new
      frame, and keeps an accumulator of byte range in byte range. */
  lemma UpdateHalvesGap(m: Model, gray: seq<int>)
    requires |m.acc| == |gray|
    ensures forall i :: 0 <= i < |gray| ==>
              Update(Some(m), gray).acc[i] - gray[i] as real == (m.acc[i] - gray[i] as real) / 2.0
    ensures IsByteImage(gray) && (forall i :: 0 <= i < |gray| ==> 0.0 <= m.acc[i] <= 255.0) ==>
              forall i :: 0 <= i < |gray| ==> 0.0 <= Update(Some(m), gray).acc[i] <= 255.0
  {
  }

  /** A frame whose grey level equals the background gives an empty mask
      and, when the closing keeps an empty mask empty, an all-black output. */
  lemma EqualFrameIsAllBackground(m: Model, frame: seq<Color>, gray: seq<int>,
                                  close: seq<int> -> seq<int>)
    requires |gray| == |frame| && m.gray == gray
    requires SizePreserving(close)
    requires close(seq(|gray|, i => 0)) == seq(|gray|, i => 0)
    ensures forall i :: 0 <= i < |gray| ==> ThresholdMask(gray, m.gray)[i] == 0
    ensures forall i :: 0 <= i < |frame| ==> Subtract(Some(m), frame, gray, close)[i] == Black
  {
    var zeros: seq<int> := seq(|gray|, i => 0);
    forall i | 0 <= i < |gray| ensures ThresholdMask(gray, m.gray)[i] == zeros[i] {
      assert ThresholdMask(gray, m.gray)[i]
          == (if Abs(gray[i] - m.gray[i]) > Threshold then ForegroundLabel else 0);
    }
    assert ThresholdMask(gray, m.gray) == zeros;
  }

  /** The threshold is strict: a difference of exactly 30 is background,
      31 is foreground. */
  lemma ThresholdIsStrict()
    ensures ThresholdMask([130], [100]) == [0]
    ensures ThresholdMask([131], [100]) == [ForegroundLabel]
    ensures ThresholdMask([69], [100]) == [ForegroundLabel]
  {
  }

  /** The update requested by a click happens after this tick's subtraction:
      a tick from the empty state outputs black and only then learns. */
  lemma UpdateAfterSubtraction(frame: seq<Color>, gray: seq<int>, close: seq<int> -> seq<int>)
    requires |gray| == |frame| && IsByteImage(gray)
    requires SizePreserving(close)
    ensures var r := Tick(Mouse(InitialRemover, LeftDown), frame, gray, close);
            (forall i :: 0 <= i < |frame| ==> r.0[i] == Black)
            && r.1.model.Some? && r.1.model.value.gray == gray && !r.1.needUpdate
  {
    FirstUpdateSeeds(gray);
  }
}
