/** DepthBackgroundRemover: a depth background that is the running per-pixel
    maximum of the depth frames seen, and a foreground mask of the pixels
    noticeably closer than it. Frames are flat row-major pixel sequences, as
    the source's pointer loops traverse them. */
module DepthBackground {

  /** A pixel is foreground when closer than this fraction of the background. */
  const ForegroundRatio: real := 0.9
  /** Mask value of a foreground pixel. */
  const ForegroundLabel: int := 255

  /** The effect's state; an empty background means no frame was seen yet. */
  datatype DepthRemover = DepthRemover(background: seq<real>)

  const InitialDepthRemover: DepthRemover := DepthRemover([])

  /** The mask before the morphological opening, and the next state. */
  datatype DepthResult = DepthResult(mask: seq<int>, next: DepthRemover)

  predicate IsForeground(depth: real, background: real) {
    depth != 0.0 && depth < background * ForegroundRatio
  }

  function Max(a: real, b: real): real {
    if a < b then b else a
  }

  /** The background compared against: the first frame seeds it. */
  function Seeded(s: DepthRemover, depth: seq<real>): seq<real> {
    if |s.background| == 0 then depth else s.background
  }

  /** The size rule of the source: the background, once seeded, must have the
      frame's size (it is never reallocated). */
  predicate Fits(s: DepthRemover, depth: seq<real>) {
    |s.background| == 0 || |s.background| == |depth|
  }

  /** The per-tick rule as a pure function: the reference the loops of Tick
      are checked against. */
  function Step(s: DepthRemover, depth: seq<real>): DepthResult
    requires Fits(s, depth)
  {
    var bg := Seeded(s, depth);
    DepthResult(
      seq(|depth|, i requires 0 <= i < |depth| =>
        if IsForeground(depth[i], bg[i]) then ForegroundLabel else 0),
      DepthRemover(seq(|depth|, i requires 0 <= i < |depth| => Max(bg[i], depth[i]))))
  }

  /** DepthBackgroundRemover::fn: seed, mark foreground against the
      background from before this tick, then raise the background. */
  method Tick(s: DepthRemover, depth: seq<real>) returns (r: DepthResult)
    requires Fits(s, depth)
    ensures r == Step(s, depth)
    ensures |r.mask| == |depth| && |r.next.background| == |depth|
    ensures forall i :: 0 <= i < |depth| ==> r.mask[i] == 0 || r.mask[i] == ForegroundLabel
    ensures forall i :: 0 <= i < |depth| ==>
              (r.mask[i] == ForegroundLabel <==>
                 depth[i] != 0.0 && depth[i] < Seeded(s, depth)[i] * ForegroundRatio)
    ensures forall i :: 0 <= i < |depth| ==>
              r.next.background[i] >= Seeded(s, depth)[i] && r.next.background[i] >= depth[i]
              && (r.next.background[i] == Seeded(s, depth)[i] || r.next.background[i] == depth[i])
  {
    var background := Seeded(s, depth);
    ghost var before := background;
    // foreground pass
    var mask: seq<int> := [];
    var k := 0;
    while k < |depth|
      invariant 0 <= k <= |depth|
      invariant |mask| == k
      invariant forall i :: 0 <= i < k ==>
                  mask[i] == (if IsForeground(depth[i], before[i]) then ForegroundLabel else 0)
    {
      mask := mask + [if depth[k] != 0.0 && depth[k] < background[k] * ForegroundRatio then ForegroundLabel else 0];
      k := k + 1;
    }
    // background update: running maximum
    k := 0;
    while k < |depth|
      invariant 0 <= k <= |depth|
      invariant |background| == |depth|
      invariant forall i :: 0 <= i < k ==> background[i] == Max(before[i], depth[i])
      invariant forall i :: k <= i < |depth| ==> background[i] == before[i]
    {
      if depth[k] > background[k] {
        background := background[k := depth[k]];
      }
      k := k + 1;
    }
    r := DepthResult(mask, DepthRemover(background));
  }

  /** The first call compares a frame with itself: with non-negative depths no
      pixel is foreground, and the background is that frame. */
  lemma FirstTickHasNoForeground(depth: seq<real>)
    requires forall i :: 0 <= i < |depth| ==> depth[i] >= 0.0
    ensures var r := Step(InitialDepthRemover, depth);
            (forall i :: 0 <= i < |depth| ==> r.mask[i] == 0) && r.next.background == depth
  {
  }

  /** A pixel without a reading is never foreground and leaves a non-negative
      background as it is. */
  lemma ZeroDepthIsInert(s: DepthRemover, depth: seq<real>, i: int)
    requires Fits(s, depth) && 0 <= i < |depth| && depth[i] == 0.0
    requires Seeded(s, depth)[i] >= 0.0
    ensures Step(s, depth).mask[i] == 0
    ensures Step(s, depth).next.background[i] == Seeded(s, depth)[i]
  {
  }

  /** Feeding the same frame twice leaves the background unchanged the
      second time. */
  lemma SameFrameTwiceIsStable(s: DepthRemover, depth: seq<real>)
    requires Fits(s, depth)
    ensures var s1 := Step(s, depth).next;
            Fits(s1, depth) && Step(s1, depth).next == s1
  {
    var s1 := Step(s, depth).next;
    assert |s1.background| == |depth|;
    var s2 := Step(s1, depth).next;
    assert forall i :: 0 <= i < |depth| ==> s2.background[i] == s1.background[i];
  }

  /** The state after feeding `frames` one after another, from a remover
      that is either fresh or seeded with n pixels. */
  function Run(s: DepthRemover, frames: seq<seq<real>>, n: nat): (r: DepthRemover)
    requires |s.background| == 0 || |s.background| == n
    requires forall k :: 0 <= k < |frames| ==> |frames[k]| == n
    ensures |frames| == 0 ==> r == s
    ensures |frames| > 0 || |s.background| == n ==> |r.background| == n
    decreases |frames|
  {
    if |frames| == 0 then s
    else Run(Step(s, frames[0]).next, frames[1..], n)
  }

  /** Over any sequence of frames, from the fresh remover or a seeded one,
      the background never decreases at any pixel, ends at least as far as
      every reading seen, and is always one of those values: the seeded
      background or a reading. So it is the running maximum. */
  lemma {:induction false} BackgroundNeverDecreases(s: DepthRemover, frames: seq<seq<real>>, n: nat)
    requires |s.background| == 0 || |s.background| == n
    requires forall k :: 0 <= k < |frames| ==> |frames[k]| == n
    ensures forall i :: 0 <= i < |s.background| ==> Run(s, frames, n).background[i] >= s.background[i]
    ensures forall k, i :: 0 <= k < |frames| && 0 <= i < n ==>
              Run(s, frames, n).background[i] >= frames[k][i]
    ensures |frames| > 0 || |s.background| == n ==>
              forall i :: 0 <= i < n ==>
                (|s.background| == n && Run(s, frames, n).background[i] == s.background[i])
                || exists k :: 0 <= k < |frames| && Run(s, frames, n).background[i] == frames[k][i]
    decreases |frames|
  {
    if |frames| > 0 {
      var s1 := Step(s, frames[0]).next;
      var bg := Seeded(s, frames[0]);
      var r := Run(s, frames, n);
      assert r == Run(s1, frames[1..], n);
      BackgroundNeverDecreases(s1, frames[1..], n);
      forall k, i | 0 <= k < |frames| && 0 <= i < n
        ensures r.background[i] >= frames[k][i]
      {
        if k > 0 {
          assert frames[k] == frames[1..][k - 1];
        }
      }
      forall i | 0 <= i < n
        ensures (|s.background| == n && r.background[i] == s.background[i])
                || exists k :: 0 <= k < |frames| && r.background[i] == frames[k][i]
      {
        assert s1.background[i] == Max(bg[i], frames[0][i]);
        if exists k' :: 0 <= k' < |frames[1..]| && r.background[i] == frames[1..][k'][i] {
          var k' :| 0 <= k' < |frames[1..]| && r.background[i] == frames[1..][k'][i];
          assert r.background[i] == frames[k' + 1][i];
        } else {
          assert r.background[i] == s1.background[i];
          if s1.background[i] == frames[0][i] {
            assert r.background[i] == frames[0][i];
          }
        }
      }
    }
  }
}
