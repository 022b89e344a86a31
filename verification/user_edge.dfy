/** draw_users_contour: which pixels of a user-label mask are drawn as user
    edges. A visited pixel is an edge when one of its in-bounds 4-neighbours
    carries a different label. Only the choice of pixels is modelled, not the
    circles drawn around them. */
module UserEdge {

  /** A user-label mask, row by row (cv::Mat1b). */
  type Labels = seq<seq<int>>

  /** The loop bounds come from the output image (rows x cols), so the mask
      must be at least that large. */
  predicate Covers(user: Labels, rows: nat, cols: nat) {
    rows <= |user| && forall r :: 0 <= r < rows ==> cols <= |user[r]|
  }

  /** The 4-neighbour test of the source, each neighbour guarded by its
      bounds check. */
  predicate DiffersFromNeighbour(user: Labels, rows: nat, cols: nat, r: int, c: int)
    requires Covers(user, rows, cols) && 0 <= r < rows && 0 <= c < cols
  {
    || (c > 0 && user[r][c] != user[r][c - 1])
    || (c < cols - 1 && user[r][c] != user[r][c + 1])
    || (r > 0 && user[r][c] != user[r - 1][c])
    || (r < rows - 1 && user[r][c] != user[r + 1][c])
  }

  function Neighbours4(r: int, c: int): set<(int, int)> {
    {(r, c - 1), (r, c + 1), (r - 1, c), (r + 1, c)}
  }

  /** Every row has `cols` columns. */
  predicate Rectangular(user: Labels, cols: nat) {
    forall r :: 0 <= r < |user| ==> |user[r]| == cols
  }

  predicate InImage(q: (int, int), rows: nat, cols: nat) {
    0 <= q.0 < rows && 0 <= q.1 < cols
  }

  /** The edge test says exactly: some in-bounds 4-neighbour has another
      label. Out-of-bounds neighbours never count. */
  lemma EdgeIffNeighbourDiffers(user: Labels, rows: nat, cols: nat, r: int, c: int)
    requires Covers(user, rows, cols) && 0 <= r < rows && 0 <= c < cols
    ensures DiffersFromNeighbour(user, rows, cols, r, c)
        <==> exists q :: q in Neighbours4(r, c) && InImage(q, rows, cols) && user[q.0][q.1] != user[r][c]
  {
    if DiffersFromNeighbour(user, rows, cols, r, c) {
      if c > 0 && user[r][c] != user[r][c - 1] {
        assert (r, c - 1) in Neighbours4(r, c);
      } else if c < cols - 1 && user[r][c] != user[r][c + 1] {
        assert (r, c + 1) in Neighbours4(r, c);
      } else if r > 0 && user[r][c] != user[r - 1][c] {
        assert (r - 1, c) in Neighbours4(r, c);
      } else {
        assert (r + 1, c) in Neighbours4(r, c);
      }
    }
  }

  /** The source reads `user_data[max_user_idx]` for every pixel whose label
      passes the lower bound: that read needs the row to be wider than
      max_user_idx. */
  predicate UpperReadInRow(user: Labels, rows: nat, cols: nat, minIdx: int, maxIdx: int)
    requires Covers(user, rows, cols)
  {
    forall r, c :: 0 <= r < rows && 0 <= c < cols && user[r][c] >= minIdx ==> 0 <= maxIdx < |user[r]|
  }

  /** The skip test as written: the upper bound is checked on the pixel at
      column max_user_idx of the row, not on the visited pixel. */
  predicate SkippedAsWritten(user: Labels, rows: nat, cols: nat, r: int, c: int, minIdx: int, maxIdx: int)
    requires Covers(user, rows, cols) && UpperReadInRow(user, rows, cols, minIdx, maxIdx)
    requires 0 <= r < rows && 0 <= c < cols
  {
    user[r][c] < minIdx || user[r][maxIdx] > maxIdx
  }

  /** The skip test as intended: the visited pixel's label is outside
      [minIdx, maxIdx]. */
  predicate Skipped(user: Labels, r: int, c: int, minIdx: int, maxIdx: int)
    requires 0 <= r < |user| && 0 <= c < |user[r]|
  {
    user[r][c] < minIdx || user[r][c] > maxIdx
  }

  /** The pixels draw_users_contour marks, as written. */
  function MarkedAsWritten(user: Labels, rows: nat, cols: nat, minIdx: int, maxIdx: int): (m: set<(int, int)>)
    requires Covers(user, rows, cols) && UpperReadInRow(user, rows, cols, minIdx, maxIdx)
    ensures forall p :: p in m ==> InImage(p, rows, cols) && user[p.0][p.1] >= minIdx
  {
    set r, c | 0 <= r < rows && 0 <= c < cols
                 && !SkippedAsWritten(user, rows, cols, r, c, minIdx, maxIdx)
                 && DiffersFromNeighbour(user, rows, cols, r, c) :: (r, c)
  }

  /** The pixels draw_users_contour marks with the upper bound tested on the
      visited pixel. */
  function Marked(user: Labels, rows: nat, cols: nat, minIdx: int, maxIdx: int): (m: set<(int, int)>)
    requires Covers(user, rows, cols)
    ensures forall p :: p in m ==> InImage(p, rows, cols) && minIdx <= user[p.0][p.1] <= maxIdx
  {
    set r, c | 0 <= r < rows && 0 <= c < cols
                 && !Skipped(user, r, c, minIdx, maxIdx)
                 && DiffersFromNeighbour(user, rows, cols, r, c) :: (r, c)
  }

  /** A mask with a single label has no edge pixels, whatever the bounds. */
  lemma UniformMaskHasNoEdges(user: Labels, rows: nat, cols: nat, minIdx: int, maxIdx: int, only: int)
    requires Covers(user, rows, cols)
    requires forall r, c :: 0 <= r < rows && 0 <= c < cols ==> user[r][c] == only
    ensures Marked(user, rows, cols, minIdx, maxIdx) == {}
    ensures UpperReadInRow(user, rows, cols, minIdx, maxIdx) ==>
              MarkedAsWritten(user, rows, cols, minIdx, maxIdx) == {}
  {
    forall r, c | 0 <= r < rows && 0 <= c < cols
      ensures !DiffersFromNeighbour(user, rows, cols, r, c)
    {
    }
    assert forall p :: p !in Marked(user, rows, cols, minIdx, maxIdx);
  }

  /** With the bounds (1, 255) that CopyColorToOutAndUserEdge and Helices
      pass, label-0 pixels are never marked, and on a byte mask wider than
      255 columns the misplaced upper test never filters: both readings mark
      the same pixels. */
  lemma FullRangeBoundsAgree(user: Labels, rows: nat, cols: nat)
    requires Covers(user, rows, cols) && cols > 255
    requires forall r, c :: 0 <= r < rows && 0 <= c < |user[r]| ==> 0 <= user[r][c] <= 255
    ensures UpperReadInRow(user, rows, cols, 1, 255)
    ensures MarkedAsWritten(user, rows, cols, 1, 255) == Marked(user, rows, cols, 1, 255)
    ensures forall p :: p in Marked(user, rows, cols, 1, 255) ==> user[p.0][p.1] != 0
  {
    assert UpperReadInRow(user, rows, cols, 1, 255);
    forall p | p in MarkedAsWritten(user, rows, cols, 1, 255)
      ensures p in Marked(user, rows, cols, 1, 255)
    {
      assert !Skipped(user, p.0, p.1, 1, 255);
    }
    forall p | p in Marked(user, rows, cols, 1, 255)
      ensures p in MarkedAsWritten(user, rows, cols, 1, 255)
    {
      assert !SkippedAsWritten(user, rows, cols, p.0, p.1, 1, 255);
    }
  }

  /** Edges come in pairs: if p is marked because its neighbour q carries
      another label, and q's label is within the bounds, q is marked too. */
  lemma EdgesAreSymmetric(user: Labels, rows: nat, cols: nat, minIdx: int, maxIdx: int,
                          p: (int, int), q: (int, int))
    requires Covers(user, rows, cols)
    requires p in Marked(user, rows, cols, minIdx, maxIdx)
    requires q in Neighbours4(p.0, p.1) && InImage(q, rows, cols)
    requires user[q.0][q.1] != user[p.0][p.1]
    requires minIdx <= user[q.0][q.1] <= maxIdx
    ensures q in Marked(user, rows, cols, minIdx, maxIdx)
  {
    assert DiffersFromNeighbour(user, rows, cols, q.0, q.1);
  }

  /** CloneUser draws the selected user with both bounds equal to its label.
      As written, a pixel of another user is drawn as soon as the pixel at
      column `label` of its row passes the upper test: here user 2's pixel
      (0, 0) is drawn for selected user 1. With the test on the visited pixel
      it is not. */
  lemma SelectedUserContourLeaks()
    ensures UpperReadInRow([[2, 1]], 1, 2, 1, 1)
    ensures (0, 0) in MarkedAsWritten([[2, 1]], 1, 2, 1, 1)
    ensures (0, 0) !in Marked([[2, 1]], 1, 2, 1, 1)
  {
    var user: Labels := [[2, 1]];
    assert !SkippedAsWritten(user, 1, 2, 0, 0, 1, 1);
    assert DiffersFromNeighbour(user, 1, 2, 0, 0);
  }
}
