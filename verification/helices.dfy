/** Helices: a grid of spinning bars that speed up while a user covers
    them and fall back, in sync, to a shared idle rotation otherwise. */
module Helices {
  import opened Geometry
  import opened Optional
  import UserEdge

  const SpeedIncr: real := 0.5
  const SpeedDecr: real := 0.5
  const MaxSpeed: real := 15.0
  const IdleSpeed: real := 0.8
  /** Upper end of the "slightly faster than idle" band: idle + 3 * decr. */
  const SlowBand: real := IdleSpeed + 3.0 * SpeedDecr
  /** The speed a helix in that band is set to: idle + 2 * decr. */
  const SlowdownSpeed: real := IdleSpeed + 2.0 * SpeedDecr
  /** How close to the shared angle (modulo pi) a helix snaps back. */
  const SnapTolerance: real := 0.3

  const RowStep: nat := 30
  const ColStep: nat := 50

  /** A bar: where it is drawn, its angle and its angular speed. */
  datatype Helix = Helix(center: Point, angle: real, speed: real)

  predicate InBand(h: Helix) {
    IdleSpeed <= h.speed <= MaxSpeed
  }

  /** Helix::refresh_angle. `elapsed` is the time since the helix's last
      refresh, `shared` the shared idle angle, `onUser` whether the user
      mask is non-zero at the centre, and `fmodPi` the C library's
      fmod(., pi). */
  function Refresh(h: Helix, onUser: bool, shared: real, elapsed: real, fmodPi: real -> real): (r: Helix)
    ensures r.center == h.center
    // on the user: advance, and speed up by the increment up to the cap
    ensures onUser ==> r.angle == h.angle + elapsed * h.speed
    ensures onUser ==> r.speed == (if h.speed + SpeedIncr <= MaxSpeed then h.speed + SpeedIncr else MaxSpeed)
    // off the user and idle or slower: back to the shared angle at idle speed
    ensures !onUser && h.speed <= IdleSpeed ==> r.angle == shared && r.speed == IdleSpeed
    // off the user in the slow band: snap back near the shared angle,
    // otherwise advance at the slowdown speed
    ensures !onUser && IdleSpeed < h.speed <= SlowBand ==>
              var advanced := h.angle + elapsed * h.speed;
              if fmodPi(advanced - shared) < SnapTolerance then r.angle == shared && r.speed == IdleSpeed
              else r.angle == advanced && r.speed == SlowdownSpeed
    // off the user and fast: advance and slow down by the decrement, not below 0
    ensures !onUser && h.speed > SlowBand ==>
              r.angle == h.angle + elapsed * h.speed
              && r.speed == (if h.speed - SpeedDecr >= 0.0 then h.speed - SpeedDecr else 0.0)
    ensures !onUser && r.speed == IdleSpeed ==> r.angle == shared
  {
    var angle := h.angle + elapsed * h.speed;
    if onUser then
      Helix(h.center, angle, if MaxSpeed < h.speed + SpeedIncr then MaxSpeed else h.speed + SpeedIncr)
    else if h.speed <= IdleSpeed then
      Helix(h.center, shared, IdleSpeed)
    else if h.speed <= SlowBand then
      if fmodPi(angle - shared) < SnapTolerance then Helix(h.center, shared, IdleSpeed)
      else Helix(h.center, angle, SlowdownSpeed)
    else
      Helix(h.center, angle, if h.speed - SpeedDecr < 0.0 then 0.0 else h.speed - SpeedDecr)
  }

  /** Every refresh keeps the speed within [idle, max]. */
  lemma RefreshKeepsBand(h: Helix, onUser: bool, shared: real, elapsed: real, fmodPi: real -> real)
    requires InBand(h)
    ensures InBand(Refresh(h, onUser, shared, elapsed, fmodPi))
  {
  }

  /** Off the user, one refresh leaves the speed at most
      max(slowdown speed, speed - decr): fast helices slow down. */
  lemma OffUserSlowsDown(h: Helix, shared: real, elapsed: real, fmodPi: real -> real)
    requires InBand(h)
    ensures var r := Refresh(h, false, shared, elapsed, fmodPi);
            r.speed <= SlowdownSpeed || r.speed == h.speed - SpeedDecr
    ensures h.speed > SlowBand ==> Refresh(h, false, shared, elapsed, fmodPi).speed == h.speed - SpeedDecr
  {
  }

  /** A helix that is idle and off the user stays in sync: it follows the
      shared angle at idle speed. */
  lemma IdleHelixFollowsShared(h: Helix, shared: real, elapsed: real, fmodPi: real -> real)
    requires h.speed == IdleSpeed
    ensures Refresh(h, false, shared, elapsed, fmodPi) == Helix(h.center, shared, IdleSpeed)
  {
  }

  /** n refreshes off the user. */
  function OffUser(h: Helix, n: nat, shared: real, elapsed: real, fmodPi: real -> real): Helix
    decreases n
  {
    if n == 0 then h else OffUser(Refresh(h, false, shared, elapsed, fmodPi), n - 1, shared, elapsed, fmodPi)
  }

  /** Left alone for n frames, a helix in the band is at most
      max(slowdown speed, speed - n * decr) fast: it winds down to the
      slow band and stays there. */
  lemma {:induction false} OffUserWindsDown(h: Helix, n: nat, shared: real, elapsed: real, fmodPi: real -> real)
    requires InBand(h)
    ensures var r := OffUser(h, n, shared, elapsed, fmodPi);
            InBand(r) && (r.speed <= SlowdownSpeed || r.speed <= h.speed - n as real * SpeedDecr)
    decreases n
  {
    if n > 0 {
      var h' := Refresh(h, false, shared, elapsed, fmodPi);
      RefreshKeepsBand(h, false, shared, elapsed, fmodPi);
      OffUserSlowsDown(h, shared, elapsed, fmodPi);
      OffUserWindsDown(h', n - 1, shared, elapsed, fmodPi);
    }
  }

  //////////////////////////////////////////////////////////////////////////////
  // helix-grid creation

  /** The centres of one grid row: columns col, col + 50, ... below cols,
      shifted right by `shift`. */
  function RowCentres(row: int, shift: int, cols: int, col: nat): seq<Point>
    decreases cols - col
  {
    if col >= cols then [] else [Point(col + shift, row)] + RowCentres(row, shift, cols, col + ColStep)
  }

  /** The centres of the rows row, row + 30, ... below rows. The row counter
      is incremented before use, so the first row and every other one after
      it are shifted by half a column step. */
  function GridCentres(rows: int, cols: int, row: nat, rowIdx: int): seq<Point>
    decreases rows - row
  {
    if row >= rows then []
    else
      var k := rowIdx + 1;
      RowCentres(row, (k % 2) * ColStep / 2, cols, 0) + GridCentres(rows, cols, row + RowStep, k)
  }

  function CeilDiv(n: int, d: nat): int
    requires d > 0
  {
    (n + d - 1) / d
  }

  lemma {:induction false} RowCount(row: int, shift: int, cols: int, col: nat)
    ensures |RowCentres(row, shift, cols, col)| == if col >= cols then 0 else CeilDiv(cols - col, ColStep)
    decreases cols - col
  {
    if col < cols {
      RowCount(row, shift, cols, col + ColStep);
    }
  }

  lemma {:induction false} GridCount(rows: int, cols: int, row: nat, rowIdx: int)
    requires cols >= 0
    ensures |GridCentres(rows, cols, row, rowIdx)| ==
              if row >= rows then 0 else CeilDiv(rows - row, RowStep) * CeilDiv(cols, ColStep)
    decreases rows - row
  {
    if row < rows {
      var k := rowIdx + 1;
      RowCount(row, (k % 2) * ColStep / 2, cols, 0);
      GridCount(rows, cols, row + RowStep, k);
      var a := CeilDiv(rows - row, RowStep);
      var c := CeilDiv(cols, ColStep);
      assert row + RowStep < rows ==> CeilDiv(rows - row - RowStep, RowStep) == a - 1;
      assert c + (a - 1) * c == a * c;
    }
  }

  /** Every centre of a row lies on that row, on a column step shifted by
      `shift`, and within [shift, cols + shift). */
  lemma {:induction false} RowCentresPlaced(row: int, shift: int, cols: int, col: nat)
    requires col % ColStep == 0
    ensures forall p :: p in RowCentres(row, shift, cols, col) ==>
              p.y == row && col + shift <= p.x < cols + shift && (p.x - shift) % ColStep == 0
    decreases cols - col
  {
    if col < cols {
      RowCentresPlaced(row, shift, cols, col + ColStep);
    }
  }

  /** Every grid centre lies on a row multiple of 30 inside the image, and
      on a column multiple of 50 shifted by 25 on the rows with an even
      index (0, 60, ...); so x may reach up to cols + 24. */
  lemma {:induction false} GridCentresPlaced(rows: int, cols: int, row: nat, rowIdx: int)
    requires row % RowStep == 0 && rowIdx == row / RowStep
    ensures forall p :: p in GridCentres(rows, cols, row, rowIdx) ==>
              && row <= p.y < rows && p.y % RowStep == 0
              && 0 <= p.x < cols + ColStep / 2
              && (p.x - (if (p.y / RowStep) % 2 == 0 then ColStep / 2 else 0)) % ColStep == 0
    decreases rows - row
  {
    if row < rows {
      var k := rowIdx + 1;
      var shift := (k % 2) * ColStep / 2;
      RowCentresPlaced(row, shift, cols, 0);
      GridCentresPlaced(rows, cols, row + RowStep, k);
    }
  }

  /** The grid of a fresh frame: ceil(rows / 30) * ceil(cols / 50) helices,
      all at the shared angle and idle speed. */
  function CreateGrid(rows: nat, cols: nat, shared: real): (g: seq<Helix>)
    ensures |g| == CeilDiv(rows, RowStep) * CeilDiv(cols, ColStep)
    ensures |g| == |GridCentres(rows, cols, 0, 0)|
    ensures forall i :: 0 <= i < |g| ==>
              g[i] == Helix(GridCentres(rows, cols, 0, 0)[i], shared, IdleSpeed)
  {
    var centres := GridCentres(rows, cols, 0, 0);
    GridCount(rows, cols, 0, 0);
    seq(|centres|, i requires 0 <= i < |centres| => Helix(centres[i], shared, IdleSpeed))
  }

  //////////////////////////////////////////////////////////////////////////////
  // fn

  /** The helices refreshed this frame: the existing ones, or on the first
      frame a fresh grid. */
  function Current(helices: seq<Helix>, rows: nat, cols: nat, shared: real): seq<Helix> {
    if |helices| == 0 then CreateGrid(rows, cols, shared) else helices
  }

  /** fn: create the grid on the first frame, then refresh every helix.
      `onUser` is the mask lookup at a centre and `elapsed(i)` the time
      since helix i was last refreshed. */
  function Tick(helices: seq<Helix>, rows: nat, cols: nat, shared: real, onUser: Point -> bool,
                elapsed: nat -> real, fmodPi: real -> real): (r: seq<Helix>)
    ensures |helices| > 0 ==> |r| == |helices|
    ensures |helices| == 0 ==> |r| == CeilDiv(rows, RowStep) * CeilDiv(cols, ColStep)
    ensures |helices| == 0 ==> |r| == |GridCentres(rows, cols, 0, 0)|
    ensures forall i :: 0 <= i < |r| ==>
              r[i].center == (if |helices| > 0 then helices[i].center else GridCentres(rows, cols, 0, 0)[i])
    ensures forall i :: 0 <= i < |r| ==>
              var h := Current(helices, rows, cols, shared)[i];
              r[i] == Refresh(h, onUser(h.center), shared, elapsed(i), fmodPi)
  {
    var base := Current(helices, rows, cols, shared);
    var r := seq(|base|, i requires 0 <= i < |base| => Refresh(base[i], onUser(base[i].center), shared, elapsed(i), fmodPi));
    assert forall i :: 0 <= i < |r| ==> r[i].center == base[i].center by {
      forall i | 0 <= i < |r| ensures r[i].center == base[i].center {
        assert r[i] == Refresh(base[i], onUser(base[i].center), shared, elapsed(i), fmodPi);
      }
    }
    r
  }

  /** Helices start at idle speed and every frame keeps every helix's
      speed within [idle, max]. */
  lemma TickKeepsBand(helices: seq<Helix>, rows: nat, cols: nat, shared: real, onUser: Point -> bool,
                      elapsed: nat -> real, fmodPi: real -> real)
    requires forall i :: 0 <= i < |helices| ==> InBand(helices[i])
    ensures var r := Tick(helices, rows, cols, shared, onUser, elapsed, fmodPi);
            forall i :: 0 <= i < |r| ==> InBand(r[i])
  {
    var base := Current(helices, rows, cols, shared);
    forall i | 0 <= i < |base|
      ensures InBand(Refresh(base[i], onUser(base[i].center), shared, elapsed(i), fmodPi))
    {
      RefreshKeepsBand(base[i], onUser(base[i].center), shared, elapsed(i), fmodPi);
    }
  }

  //////////////////////////////////////////////////////////////////////////////
  // the mask lookup at a centre

  /** The byte at `offset` of the mask's continuous row-major buffer of
      |labels| rows of `cols` bytes; None past the end of the buffer. */
  function FlatRead(labels: UserEdge.Labels, cols: nat, offset: nat): Option<int>
    requires UserEdge.Rectangular(labels, cols)
    decreases |labels|
  {
    if |labels| == 0 then None
    else if offset < cols then Some(labels[0][offset])
    else FlatRead(labels[1..], cols, offset - cols)
  }

  /** `user.at<uchar>(_center)` as written: the byte at offset y * cols + x,
      with no check of the column, tested for non-zero. None stands for a
      read past the end of the buffer. */
  function MaskAtAsWritten(labels: UserEdge.Labels, cols: nat, p: Point): Option<bool>
    requires UserEdge.Rectangular(labels, cols)
    requires p.x >= 0 && p.y >= 0
  {
    var b := FlatRead(labels, cols, p.y * cols + p.x);
    if b.Some? then Some(b.value != 0) else None
  }

  /** Row y, column x of the buffer is pixel (x, y). */
  lemma {:induction false} FlatReadInside(labels: UserEdge.Labels, cols: nat, x: nat, y: nat)
    requires UserEdge.Rectangular(labels, cols)
    requires y < |labels| && x < cols
    ensures FlatRead(labels, cols, y * cols + x) == Some(labels[y][x])
    decreases y
  {
    if y > 0 {
      assert y * cols + x - cols == (y - 1) * cols + x;
      FlatReadInside(labels[1..], cols, x, y - 1);
    }
  }

  /** The lookup the grid evidently needs: a centre is on a user when it
      lies inside the image and the mask is non-zero there. */
  predicate MaskAt(labels: UserEdge.Labels, p: Point) {
    0 <= p.y < |labels| && 0 <= p.x < |labels[p.y]| && labels[p.y][p.x] != 0
  }

  /** Inside the image both lookups read the same pixel. */
  lemma MaskAtAgreesInside(labels: UserEdge.Labels, cols: nat, p: Point)
    requires UserEdge.Rectangular(labels, cols)
    requires 0 <= p.y < |labels| && 0 <= p.x < cols
    ensures MaskAtAsWritten(labels, cols, p) == Some(MaskAt(labels, p))
  {
    FlatReadInside(labels, cols, p.x, p.y);
  }

  /** A row's centres from column col on: the one at col, then the rest. */
  lemma RowHas(row: int, shift: int, cols: int, col: nat, p: Point)
    requires col < cols
    requires p == Point(col + shift, row) || p in RowCentres(row, shift, cols, col + ColStep)
    ensures p in RowCentres(row, shift, cols, col)
  {
  }

  /** A shifted row of a 320-pixel-wide frame ends at (325, row). */
  lemma ShiftedRowEndsOutside(row: int, width: int)
    requires width == 320
    ensures Point(325, row) in RowCentres(row, 25, width, 0)
  {
    var p := Point(325, row);
    RowHas(row, 25, width, 300, p);
    RowHas(row, 25, width, 250, p);
    RowHas(row, 25, width, 200, p);
    RowHas(row, 25, width, 150, p);
    RowHas(row, 25, width, 100, p);
    RowHas(row, 25, width, 50, p);
    RowHas(row, 25, width, 0, p);
  }

  /** The centre of a row belongs to the grid when that row is one of the
      grid's. */
  lemma GridRowIn(rows: int, cols: int, row: nat, rowIdx: int, shift: int, p: Point)
    requires row < rows && shift == ((rowIdx + 1) % 2) * ColStep / 2
    requires p in RowCentres(row, shift, cols, 0)
    ensures p in GridCentres(rows, cols, row, rowIdx)
  {
    assert GridCentres(rows, cols, row, rowIdx) ==
           RowCentres(row, shift, cols, 0) + GridCentres(rows, cols, row + RowStep, rowIdx + 1);
  }

  /** The centres of the later rows belong to the grid too. */
  lemma GridLaterIn(rows: int, cols: int, row: nat, rowIdx: int, p: Point)
    requires row < rows
    requires p in GridCentres(rows, cols, row + RowStep, rowIdx + 1)
    ensures p in GridCentres(rows, cols, row, rowIdx)
  {
    var shift := ((rowIdx + 1) % 2) * ColStep / 2;
    assert GridCentres(rows, cols, row, rowIdx) ==
           RowCentres(row, shift, cols, 0) + GridCentres(rows, cols, row + RowStep, rowIdx + 1);
  }

  /** On a 320-pixel-wide frame the first row's last centre is (325, 0),
      outside the image. */
  lemma FirstRowEndsOutside(rows: int, width: int)
    requires rows > 0 && width == 320
    ensures Point(325, 0) in GridCentres(rows, width, 0, 0)
  {
    ShiftedRowEndsOutside(0, width);
    GridRowIn(rows, width, 0, 0, 25, Point(325, 0));
  }

  /** Whatever lies in the grid from the third row on lies in the grid. */
  lemma ThirdRowOnIn(rows: int, cols: int, p: Point)
    requires rows > 60
    requires p in GridCentres(rows, cols, 60, 2)
    ensures p in GridCentres(rows, cols, 0, 0)
  {
    GridLaterIn(rows, cols, 30, 1, p);
    GridLaterIn(rows, cols, 0, 0, p);
  }

  /** The third row is shifted as well: on a frame of more than 60 rows its
      last centre is (325, 60). */
  lemma ThirdRowEndsOutside(rows: int, width: int)
    requires rows > 60 && width == 320
    ensures Point(325, 60) in GridCentres(rows, width, 0, 0)
  {
    ShiftedRowEndsOutside(60, width);
    GridRowIn(rows, width, 60, 2, 25, Point(325, 60));
    ThirdRowOnIn(rows, width, Point(325, 60));
  }

  /** As written, on any 320-pixel-wide frame of two rows or more, the helix
      at (325, 0) reacts to the pixel (5, 1): the start of the next row. */
  lemma ShiftedCentreReadsNextRow(labels: UserEdge.Labels, width: nat)
    requires width == 320
    requires UserEdge.Rectangular(labels, width) && |labels| >= 2
    ensures Point(325, 0) in GridCentres(|labels|, width, 0, 0)
    ensures MaskAtAsWritten(labels, width, Point(325, 0)) == Some(labels[1][5] != 0)
    ensures !MaskAt(labels, Point(325, 0))
  {
    FirstRowEndsOutside(|labels|, width);
    FlatReadInside(labels, width, 5, 1);
  }

  /** As written, on a 320 x 61 frame the helix at (325, 60) reads past the
      end of the mask's buffer. */
  lemma ShiftedCentreReadsPastMask(labels: UserEdge.Labels)
    requires UserEdge.Rectangular(labels, 320) && |labels| == 61
    ensures Point(325, 60) in GridCentres(|labels|, 320, 0, 0)
    ensures MaskAtAsWritten(labels, 320, Point(325, 60)).None?
  {
    ThirdRowEndsOutside(|labels|, 320);
    FlatReadPastEnd(labels, 320, 19525);
  }

  /** An offset beyond the buffer reads nothing. */
  lemma {:induction false} FlatReadPastEnd(labels: UserEdge.Labels, cols: nat, offset: nat)
    requires UserEdge.Rectangular(labels, cols)
    requires offset >= |labels| * cols
    ensures FlatRead(labels, cols, offset).None?
    decreases |labels|
  {
    if |labels| > 0 {
      assert (|labels| - 1) * cols == |labels| * cols - cols;
      FlatReadPastEnd(labels[1..], cols, offset - cols);
    }
  }

  /** fn with the bounds-checked lookup: a helix is on the user exactly when
      the mask is non-zero at its centre inside the image; one whose centre
      lies outside the image is always refreshed as off the user, so it
      never speeds up. */
  function TickOnMask(helices: seq<Helix>, rows: nat, cols: nat, labels: UserEdge.Labels, shared: real,
                      elapsed: nat -> real, fmodPi: real -> real): (r: seq<Helix>)
    ensures |r| == |Current(helices, rows, cols, shared)|
    ensures forall i :: 0 <= i < |r| ==>
              var h := Current(helices, rows, cols, shared)[i];
              && r[i].center == h.center
              && (!(0 <= h.center.y < |labels| && 0 <= h.center.x < |labels[h.center.y]|) ==>
                    r[i] == Refresh(h, false, shared, elapsed(i), fmodPi))
              && (0 <= h.center.y < |labels| && 0 <= h.center.x < |labels[h.center.y]| ==>
                    r[i] == Refresh(h, labels[h.center.y][h.center.x] != 0, shared, elapsed(i), fmodPi))
  {
    Tick(helices, rows, cols, shared, p => MaskAt(labels, p), elapsed, fmodPi)
  }
}
