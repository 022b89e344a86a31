/** Blur: a Gaussian blur whose standard deviation the mouse raises and
    lowers. */
module Blur {
  import opened Events

  /** The effect's only state: the standard deviation, in pixels. */
  datatype Blurrer = Blurrer(stdDev: int)

  const InitialBlurrer: Blurrer := Blurrer(2)

  /** What fn does to the colour frame. */
  datatype Filter = Copy | Gaussian(kernel: int, sigma: int)

  /** The kernel side: 2 * (stdDev / 2) + 5, always odd and 4 or 5 more
      than the standard deviation. */
  function KernelSize(stdDev: nat): (k: int)
    ensures k % 2 == 1 && k >= 5
    ensures k - stdDev == 4 || k - stdDev == 5
    ensures k - stdDev == 5 <==> stdDev % 2 == 0
  {
    2 * (stdDev / 2) + 5
  }

  /** A larger deviation never gives a smaller kernel. */
  lemma KernelMonotone(a: nat, b: nat)
    requires a <= b
    ensures KernelSize(a) <= KernelSize(b)
  {
  }

  /** fn: a plain copy at deviation 0, otherwise a square Gaussian kernel
      with the deviation as sigma in both directions. */
  function Fn(b: Blurrer): (f: Filter)
    requires b.stdDev >= 0
    ensures f.Copy? <==> b.stdDev == 0
    ensures f.Gaussian? ==> f.sigma == b.stdDev && f.kernel % 2 == 1 && f.kernel > f.sigma
  {
    if b.stdDev == 0 then Copy else Gaussian(KernelSize(b.stdDev), b.stdDev)
  }

  /** mouse_cb: left click blurs more, right click blurs less but never
      below zero, anything else changes nothing. */
  function Mouse(b: Blurrer, event: MouseEvent): (r: Blurrer)
    ensures b.stdDev >= 0 ==> r.stdDev >= 0
    ensures event == LeftDown ==> r.stdDev == b.stdDev + 1
    ensures event == RightDown ==> r.stdDev == if b.stdDev > 0 then b.stdDev - 1 else b.stdDev
    ensures event != LeftDown && event != RightDown ==> r == b
  {
    match event
    case LeftDown => Blurrer(b.stdDev + 1)
    case RightDown => if b.stdDev > 0 then Blurrer(b.stdDev - 1) else b
    case _ => b
  }

  /** The state after a sequence of events. */
  function Run(b: Blurrer, events: seq<MouseEvent>): Blurrer
    decreases |events|
  {
    if |events| == 0 then b else Run(Mouse(b, events[0]), events[1..])
  }

  function Count(events: seq<MouseEvent>, e: MouseEvent): nat {
    if |events| == 0 then 0
    else (if events[0] == e then 1 else 0) + Count(events[1..], e)
  }

  /** Starting from a non-negative deviation, every event sequence keeps it
      non-negative, raises it by at most the number of left clicks and
      lowers it by at most the number of right clicks. */
  lemma {:induction false} RunStaysInRange(b: Blurrer, events: seq<MouseEvent>)
    requires b.stdDev >= 0
    ensures Run(b, events).stdDev >= 0
    ensures b.stdDev - Count(events, RightDown) <= Run(b, events).stdDev <= b.stdDev + Count(events, LeftDown)
    decreases |events|
  {
    if |events| > 0 {
      RunStaysInRange(Mouse(b, events[0]), events[1..]);
    }
  }

  /** n left clicks followed by n right clicks restore the deviation. */
  lemma {:induction false} ClicksCancel(b: Blurrer, n: nat)
    requires b.stdDev >= 0
    ensures Run(b, seq(n, _ => LeftDown) + seq(n, _ => RightDown)) == b
    decreases n
  {
    if n > 0 {
      var ups := seq(n, _ => LeftDown);
      var downs := seq(n, _ => RightDown);
      var b' := Mouse(b, LeftDown);
      var inner := seq(n - 1, _ => LeftDown) + seq(n - 1, _ => RightDown);
      assert (ups + downs)[1..] == inner + [RightDown];
      ClicksCancel(b', n - 1);
      RunAppend(b', inner, [RightDown]);
    }
  }

  /** Running a concatenation runs its parts in turn. */
  lemma {:induction false} RunAppend(b: Blurrer, xs: seq<MouseEvent>, ys: seq<MouseEvent>)
    ensures Run(b, xs + ys) == Run(Run(b, xs), ys)
    decreases |xs|
  {
    if |xs| > 0 {
      assert (xs + ys)[1..] == xs[1..] + ys;
      RunAppend(Mouse(b, xs[0]), xs[1..], ys);
    } else {
      assert xs + ys == ys;
    }
  }
}
