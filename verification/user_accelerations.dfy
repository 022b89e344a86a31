/** ComputeUserAccelerations: the contour motion estimator. Each tick it
    concatenates the user's contours, simplifies the result in place, and
    compares every simplified point with the previous tick's simplified
    contour (the baseline) to emit acceleration samples. */
module UserAccelerations {
  import opened Geometry
  import opened Subsequences
  import opened Unsigned
  import opened Optional

  /** Contours with fewer points are dropped before concatenation. */
  const MinContourSize: nat := 10
  /** Noise floor: only samples with a larger norm are emitted. */
  const MinAccNorm: real := 10.0
  /** A point closer than 15 px to its predecessor is erased. */
  const MinPointDistSq: int := 15 * 15

  /** Closest point of the previous contour and the distance to it. */
  datatype Nearest = Nearest(point: Point, dist: real)

  /** The geometry_utils helpers the estimator calls; their code is not part
      of this model, so they are parameters.
      - straight(a, b, c): the open angle at b is within pi/6 of pi;
      - nearest(p, poly): closest point of the polygon `poly` to p and the
        square root of the squared distance to it;
      - orientation(v): oriented angle of the vector v, in radians. */
  datatype GeometryHelpers = GeometryHelpers(
    straight: (Point, Point, Point) -> bool,
    nearest: (Point, seq<Point>) -> Nearest,
    orientation: Point -> real)

  /** One acceleration sample: origin, direction (radians) and norm. */
  datatype Acceleration = Acceleration(origin: Point, orien: real, norm: real)

  //////////////////////////////////////////////////////////////////////////////
  // Concatenation of the contours

  /** The contours that are long enough to be kept, in their order. */
  function Survivors(contours: seq<seq<Point>>): (r: seq<seq<Point>>)
  {
    if |contours| == 0 then []
    else
      var last := contours[|contours| - 1];
      Survivors(contours[..|contours| - 1]) + (if |last| < MinContourSize then [] else [last])
  }

  /** Each long contour survives as often as it occurs in the input, and
      no short one does. */
  lemma {:induction false} SurvivorCounts(contours: seq<seq<Point>>)
    ensures forall c :: multiset(Survivors(contours))[c] ==
              if |c| >= MinContourSize then multiset(contours)[c] else 0
  {
    if |contours| > 0 {
      var init := contours[..|contours| - 1];
      var last := contours[|contours| - 1];
      SurvivorCounts(init);
      assert contours == init + [last];
      assert multiset(contours) == multiset(init) + multiset{last};
    }
  }

  /** The survivors are contours of the input, each long enough, and in
      input order; every long contour survives (SurvivorCounts adds how
      often). */
  lemma {:induction false} SurvivorsAreLongContours(contours: seq<seq<Point>>)
    ensures IsSubsequence(Survivors(contours), contours)
    ensures forall c :: c in Survivors(contours) ==> |c| >= MinContourSize
    ensures forall c :: c in contours && |c| >= MinContourSize ==> c in Survivors(contours)
  {
    if |contours| > 0 {
      var init := contours[..|contours| - 1];
      var last := contours[|contours| - 1];
      SurvivorsAreLongContours(init);
      assert contours == init + [last];
      if |last| < MinContourSize {
        assert Survivors(contours) == Survivors(init);
        AppendRight(Survivors(init), init, last);
      } else {
        assert Survivors(contours) == Survivors(init) + [last];
        AppendBoth(Survivors(init), init, last);
      }
    } else {
      SubsequenceReflexive(contours);
    }
  }

  /** All points of `cs`, contour after contour. */
  function Flatten(cs: seq<seq<Point>>): seq<Point> {
    if |cs| == 0 then [] else Flatten(cs[..|cs| - 1]) + cs[|cs| - 1]
  }

  /** Total number of points of all contours. */
  function TotalSize(cs: seq<seq<Point>>): nat {
    if |cs| == 0 then 0 else TotalSize(cs[..|cs| - 1]) + |cs[|cs| - 1]|
  }

  /** The source's concatenation loop: skip short contours, append the others. */
  method ConcatenateContours(contours: seq<seq<Point>>) returns (r: seq<Point>)
    ensures r == Flatten(Survivors(contours))
  {
    r := [];
    var k := 0;
    while k < |contours|
      invariant 0 <= k <= |contours|
      invariant r == Flatten(Survivors(contours[..k]))
    {
      var c := contours[k];
      ConcatenationStep(contours, k);
      if |c| >= MinContourSize {
        r := r + c;
      }
      k := k + 1;
    }
    assert contours[..k] == contours;
  }

  /** The loop step of ConcatenateContours: one more contour appends its
      points when it survives. */
  lemma ConcatenationStep(contours: seq<seq<Point>>, k: nat)
    requires k < |contours|
    ensures Flatten(Survivors(contours[..k + 1]))
         == Flatten(Survivors(contours[..k])) + (if |contours[k]| < MinContourSize then [] else contours[k])
  {
    assert contours[..k + 1] == contours[..k] + [contours[k]];
    ConcatenationAppends(contours[..k], contours[k]);
  }

  /** Concatenation never adds points, and it is empty exactly when every
      contour is too short; otherwise it holds at least one whole contour. */
  lemma {:induction false} ConcatenationSize(cs: seq<seq<Point>>)
    ensures |Flatten(Survivors(cs))| <= TotalSize(cs)
    ensures |Flatten(Survivors(cs))| == 0 <==> forall i :: 0 <= i < |cs| ==> |cs[i]| < MinContourSize
    ensures |Flatten(Survivors(cs))| != 0 ==> |Flatten(Survivors(cs))| >= MinContourSize
  {
    if |cs| > 0 {
      var init := cs[..|cs| - 1];
      ConcatenationSize(init);
      var last := cs[|cs| - 1];
      if |last| < MinContourSize {
        assert Survivors(cs) == Survivors(init);
      } else {
        assert Survivors(cs) == Survivors(init) + [last];
        assert Flatten(Survivors(cs)) == Flatten(Survivors(init)) + last;
      }
      assert forall i :: 0 <= i < |init| ==> init[i] == cs[i];
    }
  }

  /** Concatenating keeps each surviving contour as a contiguous block, in
      contour order: the survivors' points are exactly the result. */
  lemma {:induction false} ConcatenationAppends(cs: seq<seq<Point>>, c: seq<Point>)
    ensures Flatten(Survivors(cs + [c]))
         == Flatten(Survivors(cs)) + (if |c| < MinContourSize then [] else c)
  {
    assert (cs + [c])[..|cs|] == cs;
    var s := Survivors(cs);
    if |c| >= MinContourSize {
      assert Survivors(cs + [c]) == s + [c];
      assert (s + [c])[..|s|] == s;
    } else {
      assert Survivors(cs + [c]) == s + [];
      assert s + [] == s;
    }
  }

  //////////////////////////////////////////////////////////////////////////////
  // simplify_contour

  /** The loop bound `contour.size() - 2`, computed in `size_t`. */
  function LoopBoundAsWritten(n: nat): int {
    Wrap64(n - 2)
  }

  /** For fewer than two points the bound wraps around, so the first
      iteration runs and reads `contour[1]` (and `contour[0]` when empty). */
  lemma BoundUnderflows(n: nat)
    requires n < 2
    ensures LoopBoundAsWritten(n) >= U64 - 2
  {
  }

  /** The erase-and-rewind pass of simplify_contour, on a contour with at least
      two points. `idx` is the source's `unsigned int pt_idx`: on an erase it is
      decremented (wrapping at 0) and the loop's increment brings it back, so
      the same index is re-examined. */
  method SimplifyLoop(contour: seq<Point>, straight: (Point, Point, Point) -> bool)
      returns (r: seq<Point>)
    requires 2 <= |contour| <= U32
    ensures 2 <= |r| <= |contour|
    ensures r[0] == contour[0] && r[|r| - 1] == contour[|contour| - 1]
    ensures IsSubsequence(r, contour)
    ensures forall i :: 0 <= i < |r| - 2 ==> DistSq(r[i], r[i + 1]) >= MinPointDistSq
  {
    r := contour;
    SubsequenceReflexive(contour);
    var idx := 0;
    while idx < |r| - 2
      invariant Simplifying(r, contour, idx)
      decreases |r| - idx
    {
      var needDelete := DistSq(r[idx], r[idx + 1]) < MinPointDistSq
                     || straight(r[idx], r[idx + 1], r[idx + 2]);
      if needDelete {
        // erase r[idx + 1] and rewind, so that idx is examined again
        EraseStep(r, contour, idx);
        r := r[..idx + 1] + r[idx + 2..];
        RewindThenAdvance(idx);
        idx := Wrap32(idx - 1);
      } else {
        KeepStep(r, contour, idx);
      }
      idx := Wrap32(idx + 1);
    }
  }

  /** The simplifier's loop invariant: the working contour keeps both ends of
      the original, is a subsequence of it, and is spaced before `idx`. */
  predicate Simplifying(r: seq<Point>, contour: seq<Point>, idx: int) {
    2 <= |r| <= |contour| <= U32
    && 0 <= idx <= |r| - 2
    && r[0] == contour[0] && r[|r| - 1] == contour[|contour| - 1]
    && IsSubsequence(r, contour)
    && SpacedBefore(r, idx)
  }

  /** Keeping the point after `idx` advances the loop by one index. */
  lemma KeepStep(r: seq<Point>, contour: seq<Point>, idx: int)
    requires Simplifying(r, contour, idx) && idx < |r| - 2
    requires DistSq(r[idx], r[idx + 1]) >= MinPointDistSq
    ensures Wrap32(idx + 1) == idx + 1
    ensures Simplifying(r, contour, idx + 1)
  {
  }

  /** One erase of the simplifier keeps the loop's invariants at the same
      index. */
  lemma EraseStep(r: seq<Point>, contour: seq<Point>, idx: int)
    requires Simplifying(r, contour, idx) && idx < |r| - 2
    ensures Simplifying(r[..idx + 1] + r[idx + 2..], contour, idx)
  {
    var r' := r[..idx + 1] + r[idx + 2..];
    EraseIsSubsequence(r, idx + 1);
    SubsequenceTransitive(r', r, contour);
    EraseAfterKeepsSpacing(r, idx);
  }

  /** Consecutive points before index `n` are at least 15 px apart. */
  predicate SpacedBefore(r: seq<Point>, n: int)
    requires n <= |r| - 1
  {
    forall i :: 0 <= i < n ==> DistSq(r[i], r[i + 1]) >= MinPointDistSq
  }

  /** Erasing the point after `idx` keeps everything up to `idx`, the last
      point, and the spacing established before `idx`. */
  lemma EraseAfterKeepsSpacing(r: seq<Point>, idx: int)
    requires 0 <= idx < |r| - 2
    requires SpacedBefore(r, idx)
    ensures var r' := r[..idx + 1] + r[idx + 2..];
            |r'| == |r| - 1
            && (forall i :: 0 <= i <= idx ==> r'[i] == r[i])
            && r'[|r'| - 1] == r[|r| - 1]
            && SpacedBefore(r', idx)
  {
    var r' := r[..idx + 1] + r[idx + 2..];
    assert forall i :: 0 <= i <= idx ==> r'[i] == r[i];
  }

  /** simplify_contour as written: with fewer than two points the unsigned
      bound underflows and the first iteration reads outside the contour,
      which is reported as None. */
  method SimplifyAsWritten(contour: seq<Point>, straight: (Point, Point, Point) -> bool)
      returns (r: Option<seq<Point>>)
    requires |contour| <= U32
    ensures r.None? <==> |contour| < 2
    ensures r.Some? ==> IsSubsequence(r.value, contour) && |r.value| >= 2
  {
    if |contour| < 2 {
      return None;
    }
    var s := SimplifyLoop(contour, straight);
    return Some(s);
  }

  /** simplify_contour with the missing guard: a contour with fewer than two
      points has nothing to simplify and is returned as it is. */
  method Simplify(contour: seq<Point>, straight: (Point, Point, Point) -> bool)
      returns (r: seq<Point>)
    requires |contour| <= U32
    ensures |contour| < 2 ==> r == contour
    ensures IsSubsequence(r, contour)
    ensures |r| <= |contour|
    ensures |r| == 0 <==> |contour| == 0
    ensures |contour| >= 2 ==> r[0] == contour[0] && r[|r| - 1] == contour[|contour| - 1]
    ensures forall i :: 0 <= i < |r| - 2 ==> DistSq(r[i], r[i + 1]) >= MinPointDistSq
  {
    if |contour| < 2 {
      SubsequenceReflexive(contour);
      return contour;
    }
    r := SimplifyLoop(contour, straight);
  }

  //////////////////////////////////////////////////////////////////////////////
  // Acceleration samples

  /** The candidate sample of point `p` against the previous contour: its norm
      is the distance to that contour times the depth at `p`. */
  function SampleAt(p: Point, prev: seq<Point>, depth: Point -> real, h: GeometryHelpers): Acceleration {
    var n := h.nearest(p, prev);
    Acceleration(p, h.orientation(Sub(p, n.point)), n.dist * depth(p))
  }

  /** The samples above the noise floor, one per qualifying point, in order. */
  function Samples(pts: seq<Point>, prev: seq<Point>, depth: Point -> real, h: GeometryHelpers)
      : seq<Acceleration>
  {
    if |pts| == 0 then []
    else
      var a := SampleAt(pts[|pts| - 1], prev, depth, h);
      Samples(pts[..|pts| - 1], prev, depth, h) + (if a.norm > MinAccNorm then [a] else [])
  }

  /** Every point's candidate sample, in contour order. */
  function Candidates(pts: seq<Point>, prev: seq<Point>, depth: Point -> real, h: GeometryHelpers)
      : (c: seq<Acceleration>)
    ensures |c| == |pts|
    ensures forall i :: 0 <= i < |pts| ==> c[i] == SampleAt(pts[i], prev, depth, h)
  {
    seq(|pts|, i requires 0 <= i < |pts| => SampleAt(pts[i], prev, depth, h))
  }

  function Origins(acc: seq<Acceleration>): (r: seq<Point>)
    ensures |r| == |acc|
    ensures forall i :: 0 <= i < |acc| ==> r[i] == acc[i].origin
  {
    seq(|acc|, i requires 0 <= i < |acc| => acc[i].origin)
  }

  /** Every sample is above the noise floor; their origins form an
      order-preserving subsequence of the contour (so at most one sample per
      point, in contour order); and every point whose candidate is above the
      floor does produce its sample. */
  lemma SamplesProperties(pts: seq<Point>, prev: seq<Point>, depth: Point -> real, h: GeometryHelpers)
    ensures forall a :: a in Samples(pts, prev, depth, h) ==> a.norm > MinAccNorm && a.origin in pts
    ensures IsSubsequence(Origins(Samples(pts, prev, depth, h)), pts)
    ensures |Samples(pts, prev, depth, h)| <= |pts|
    ensures forall i :: 0 <= i < |pts| && SampleAt(pts[i], prev, depth, h).norm > MinAccNorm
              ==> SampleAt(pts[i], prev, depth, h) in Samples(pts, prev, depth, h)
    ensures IsSubsequence(Samples(pts, prev, depth, h), Candidates(pts, prev, depth, h))
    ensures forall a :: multiset(Samples(pts, prev, depth, h))[a] ==
              if a.norm > MinAccNorm then multiset(Candidates(pts, prev, depth, h))[a] else 0
  {
    SamplesSound(pts, prev, depth, h);
    SamplesInOrder(pts, prev, depth, h);
    SubsequenceLength(Origins(Samples(pts, prev, depth, h)), pts);
    SamplesComplete(pts, prev, depth, h);
  }

  /** Every sample is above the noise floor and starts at a contour point. */
  lemma {:induction false} SamplesSound(pts: seq<Point>, prev: seq<Point>, depth: Point -> real, h: GeometryHelpers)
    ensures forall a :: a in Samples(pts, prev, depth, h) ==> a.norm > MinAccNorm && a.origin in pts
  {
    if |pts| > 0 {
      var init := pts[..|pts| - 1];
      SamplesSound(init, prev, depth, h);
      assert forall p :: p in init ==> p in pts;
    }
  }

  /** The samples' origins are an order-preserving subsequence of the contour. */
  lemma {:induction false} SamplesInOrder(pts: seq<Point>, prev: seq<Point>, depth: Point -> real, h: GeometryHelpers)
    ensures IsSubsequence(Origins(Samples(pts, prev, depth, h)), pts)
  {
    if |pts| > 0 {
      var init := pts[..|pts| - 1];
      var last := pts[|pts| - 1];
      var a := SampleAt(last, prev, depth, h);
      var s0 := Samples(init, prev, depth, h);
      SamplesInOrder(init, prev, depth, h);
      assert pts == init + [last];
      if a.norm > MinAccNorm {
        assert Origins(s0 + [a]) == Origins(s0) + [last];
        AppendBoth(Origins(s0), init, last);
      } else {
        assert Samples(pts, prev, depth, h) == s0;
        AppendRight(Origins(s0), init, last);
      }
    } else {
      assert Origins([]) == [];
    }
  }

  /** Every point whose candidate is above the noise floor produces it; the
      samples are the candidates above the floor, in order and each as often
      as it occurs, so a point visited twice gives two samples. */
  lemma {:induction false} SamplesComplete(pts: seq<Point>, prev: seq<Point>, depth: Point -> real, h: GeometryHelpers)
    ensures forall i :: 0 <= i < |pts| && SampleAt(pts[i], prev, depth, h).norm > MinAccNorm
              ==> SampleAt(pts[i], prev, depth, h) in Samples(pts, prev, depth, h)
    ensures IsSubsequence(Samples(pts, prev, depth, h), Candidates(pts, prev, depth, h))
    ensures forall a :: multiset(Samples(pts, prev, depth, h))[a] ==
              if a.norm > MinAccNorm then multiset(Candidates(pts, prev, depth, h))[a] else 0
  {
    SamplesFilterCandidates(pts, prev, depth, h);
    if |pts| > 0 {
      var init := pts[..|pts| - 1];
      SamplesComplete(init, prev, depth, h);
      var s := Samples(pts, prev, depth, h);
      forall i | 0 <= i < |pts| && SampleAt(pts[i], prev, depth, h).norm > MinAccNorm
        ensures SampleAt(pts[i], prev, depth, h) in s
      {
        if i < |init| {
          assert pts[i] == init[i];
        }
      }
    }
  }

  /** The samples filter the candidates by the noise floor. */
  lemma {:induction false} SamplesFilterCandidates(pts: seq<Point>, prev: seq<Point>, depth: Point -> real, h: GeometryHelpers)
    ensures IsSubsequence(Samples(pts, prev, depth, h), Candidates(pts, prev, depth, h))
    ensures forall a :: multiset(Samples(pts, prev, depth, h))[a] ==
              if a.norm > MinAccNorm then multiset(Candidates(pts, prev, depth, h))[a] else 0
  {
    if |pts| == 0 {
      assert Candidates(pts, prev, depth, h) == [];
    } else {
      var init := pts[..|pts| - 1];
      var a := SampleAt(pts[|pts| - 1], prev, depth, h);
      var c0 := Candidates(init, prev, depth, h);
      var s0 := Samples(init, prev, depth, h);
      SamplesFilterCandidates(init, prev, depth, h);
      assert Candidates(pts, prev, depth, h) == c0 + [a];
      assert multiset(c0 + [a]) == multiset(c0) + multiset{a};
      if a.norm > MinAccNorm {
        assert Samples(pts, prev, depth, h) == s0 + [a];
        AppendBoth(s0, c0, a);
      } else {
        assert Samples(pts, prev, depth, h) == s0;
        AppendRight(s0, c0, a);
      }
    }
  }

  /** The source's emission loop over the simplified contour. */
  method EmitAccelerations(pts: seq<Point>, prev: seq<Point>, depth: Point -> real, h: GeometryHelpers)
      returns (acc: seq<Acceleration>)
    ensures acc == Samples(pts, prev, depth, h)
  {
    acc := [];
    var k := 0;
    while k < |pts|
      invariant 0 <= k <= |pts|
      invariant acc == Samples(pts[..k], prev, depth, h)
    {
      assert pts[..k + 1][..k] == pts[..k];
      var a := SampleAt(pts[k], prev, depth, h);
      if a.norm > MinAccNorm {
        acc := acc + [a];
      }
      k := k + 1;
    }
    assert pts[..k] == pts;
  }

  //////////////////////////////////////////////////////////////////////////////
  // One tick of the effect

  /** The state the effect keeps across ticks: the previous simplified contour. */
  datatype Estimator = Estimator(baseline: seq<Point>)

  const InitialEstimator: Estimator := Estimator([])

  /** What one tick computes: the samples, the intermediate contours (for
      drawing), and the state for the next tick. */
  datatype Estimate = Estimate(
    accelerations: seq<Acceleration>,
    concatenated: seq<Point>,
    simplified: seq<Point>,
    next: Estimator)

  /** One call of ComputeUserAccelerations::fn, given the contours that
      findContours extracted from `user != 0`, with simplify_contour guarded
      against short input (see SimplifyAsWritten). */
  method Tick(e: Estimator, contours: seq<seq<Point>>, depth: Point -> real, h: GeometryHelpers)
      returns (r: Estimate)
    requires TotalSize(contours) <= U32
    ensures |contours| == 0 ==> r == Estimate([], [], [], e)
    ensures |contours| > 0 ==> r.concatenated == Flatten(Survivors(contours))
    ensures IsSubsequence(r.simplified, r.concatenated)
    ensures |r.accelerations| <= |r.simplified| <= |r.concatenated| <= TotalSize(contours)
    ensures |r.simplified| == 0 <==> |r.concatenated| == 0
    ensures forall i :: 0 <= i < |r.simplified| - 2 ==> DistSq(r.simplified[i], r.simplified[i + 1]) >= MinPointDistSq
    ensures |r.simplified| == 0 ==> r.accelerations == [] && r.next == e
    ensures |r.simplified| > 0 ==> r.next.baseline == r.simplified
    ensures |r.simplified| > 0 && |e.baseline| == 0 ==> r.accelerations == []
    ensures |r.simplified| > 0 && |e.baseline| > 0 ==>
              r.accelerations == Samples(r.simplified, e.baseline, depth, h)
    ensures forall a :: a in r.accelerations ==> a.norm > MinAccNorm && a.origin in r.simplified
  {
    if |contours| == 0 {
      return Estimate([], [], [], e);
    }
    var concatenated := ConcatenateContours(contours);
    ConcatenationSize(contours);
    var simplified := Simplify(concatenated, h.straight);
    if |simplified| == 0 {
      return Estimate([], concatenated, simplified, e);
    }
    if |e.baseline| == 0 {
      return Estimate([], concatenated, simplified, Estimator(simplified));
    }
    var acc := EmitAccelerations(simplified, e.baseline, depth, h);
    SamplesProperties(simplified, e.baseline, depth, h);
    return Estimate(acc, concatenated, simplified, Estimator(simplified));
  }

  /** ComputeUserAccelerations::fn as written: when contours exist but all are
      shorter than MinContourSize, the empty concatenation reaches
      simplify_contour, whose unsigned bound underflows (None). */
  method TickAsWritten(e: Estimator, contours: seq<seq<Point>>, depth: Point -> real, h: GeometryHelpers)
      returns (r: Option<Estimate>)
    requires TotalSize(contours) <= U32
    ensures r.None? <==> |contours| > 0 && forall i :: 0 <= i < |contours| ==> |contours[i]| < MinContourSize
  {
    ConcatenationSize(contours);
    if |contours| > 0 {
      var concatenated := ConcatenateContours(contours);
      var simplified := SimplifyAsWritten(concatenated, h.straight);
      if simplified.None? {
        return None;
      }
    }
    var t := Tick(e, contours, depth, h);
    return Some(t);
  }

  /** A single one-point contour (a one-pixel blob) is enough to reach the
      underflow from fn. */
  lemma OnePixelBlobUnderflows()
    ensures var contours := [[Point(0, 0)]];
            |contours| > 0
            && (forall i :: 0 <= i < |contours| ==> |contours[i]| < MinContourSize)
            && Flatten(Survivors(contours)) == []
            && LoopBoundAsWritten(|Flatten(Survivors(contours))|) > 0
  {
    var contours := [[Point(0, 0)]];
    assert contours[..0] == [];
    assert Survivors(contours) == [];
  }
}
