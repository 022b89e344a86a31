/** CloneUser: a left click selects a user, a right click chooses where to
    paste a copy of it; each user label keeps a list of paste translations
    sorted by their y component. */
module CloneUser {
  import opened Geometry
  import opened Events
  import opened Optional
  import UserEdge

  /** For each user label, the translations its copies are pasted at. */
  type CloneMap = map<int, seq<Point>>

  /** The pending selection (clicked pixel and label, paste position) and
      the clones made so far. */
  datatype Cloner = Cloner(idxPos: Point, clonePos: Point, idx: int, clones: CloneMap)

  const Unset: Point := Point(-1, -1)

  /** reset_new_clone_data: forget the pending selection, keep the clones. */
  function Reset(s: Cloner): (r: Cloner)
    ensures r.idxPos == Unset && r.clonePos == Unset && r.idx == 0
    ensures r.clones == s.clones
  {
    Cloner(Unset, Unset, 0, s.clones)
  }

  const InitialCloner: Cloner := Cloner(Unset, Unset, 0, map[])

  /** mouse_cb: left selects the user at p, right sets the paste position,
      middle forgets every clone. Only a middle click touches the clones,
      only a left click the selected pixel and label, only a right click the
      paste position; a left click always clears the label, so that the next
      frame reads it again from the mask (see LeftClickRereadsLabel). */
  function Mouse(s: Cloner, event: MouseEvent, p: Point): (r: Cloner)
    ensures r.clones == (if event == MiddleDown then map[] else s.clones)
    ensures event != LeftDown ==> r.idxPos == s.idxPos && r.idx == s.idx
    ensures event == LeftDown ==> r.idxPos == p && r.idx == 0
    ensures r.clonePos == (if event == RightDown then p else s.clonePos)
  {
    match event
    case LeftDown => s.(idxPos := p, idx := 0)
    case RightDown => s.(clonePos := p)
    case MiddleDown => s.(clones := map[])
    case OtherEvent(_) => s
  }

  /** pts_compare: strict "comes before" on translations. */
  predicate ComesBefore(a: Point, b: Point) {
    a.y < b.y
  }

  /** pts_compare is a strict weak order: irreflexive, transitive, and its
      incomparability (same y) is transitive, as std::sort requires. */
  lemma ComesBeforeIsStrictWeakOrder(a: Point, b: Point, c: Point)
    ensures !ComesBefore(a, a)
    ensures ComesBefore(a, b) && ComesBefore(b, c) ==> ComesBefore(a, c)
    ensures !ComesBefore(a, b) && !ComesBefore(b, a) && !ComesBefore(b, c) && !ComesBefore(c, b) ==>
              !ComesBefore(a, c) && !ComesBefore(c, a)
  {
  }

  predicate SortedByY(s: seq<Point>) {
    forall i, j :: 0 <= i < j < |s| ==> !ComesBefore(s[j], s[i])
  }

  function InsertByY(s: seq<Point>, p: Point): (r: seq<Point>)
    requires SortedByY(s)
    ensures SortedByY(r)
    ensures multiset(r) == multiset(s) + multiset{p}
    ensures |r| == |s| + 1
    ensures forall q :: q in r ==> q == p || q in s
  {
    if |s| == 0 then [p]
    else if ComesBefore(p, s[0]) then [p] + s
    else
      var rest := InsertByY(s[1..], p);
      assert s == [s[0]] + s[1..];
      HeadBeforeRest(s, p, rest);
      [s[0]] + rest
  }

  /** After the head of a sorted list is kept in front, nothing inserted
      behind it comes before it. */
  lemma HeadBeforeRest(s: seq<Point>, p: Point, rest: seq<Point>)
    requires |s| > 0 && SortedByY(s) && !ComesBefore(p, s[0])
    requires forall q :: q in rest ==> q == p || q in s[1..]
    ensures forall i :: 0 <= i < |rest| ==> !ComesBefore(rest[i], s[0])
  {
    forall i | 0 <= i < |rest| ensures !ComesBefore(rest[i], s[0]) {
      var q := rest[i];
      assert q in rest;
      if q != p {
        var k :| 0 <= k < |s| - 1 && s[1..][k] == q;
        assert s[k + 1] == q;
      }
    }
  }

  /** std::sort by pts_compare. The source's sort promises no order among
      equal y; this one is an insertion sort, as std::sort uses on short
      ranges, and keeps ties in input order (SortedIsUnchanged). */
  function SortByY(s: seq<Point>): (r: seq<Point>)
    ensures SortedByY(r)
    ensures multiset(r) == multiset(s)
    ensures |r| == |s|
  {
    if |s| == 0 then []
    else
      assert s == s[..|s| - 1] + [s[|s| - 1]];
      InsertByY(SortByY(s[..|s| - 1]), s[|s| - 1])
  }

  /** Inserting a point that no element comes after appends it. */
  lemma {:induction false} InsertAtEnd(s: seq<Point>, p: Point)
    requires SortedByY(s)
    requires forall i :: 0 <= i < |s| ==> !ComesBefore(p, s[i])
    ensures InsertByY(s, p) == s + [p]
    decreases |s|
  {
    if |s| > 0 {
      InsertAtEnd(s[1..], p);
      assert s == [s[0]] + s[1..];
    }
  }

  /** The sort is stable: a list already ordered by y, ties included, comes
      back unchanged. */
  lemma {:induction false} SortedIsUnchanged(s: seq<Point>)
    requires SortedByY(s)
    ensures SortByY(s) == s
    decreases |s|
  {
    if |s| > 0 {
      var init := s[..|s| - 1];
      SortedIsUnchanged(init);
      InsertAtEnd(init, s[|s| - 1]);
      assert s == init + [s[|s| - 1]];
    }
  }

  /** Two translations at the same height keep their order. */
  lemma TiesKeepInputOrder(a: Point, b: Point)
    requires a.y == b.y
    ensures SortByY([a, b]) == [a, b]
  {
    SortedIsUnchanged([a, b]);
  }

  /** What one call of process_new_clone_data did: at most one of these. */
  datatype Action = Nothing | ResetSelection | Inserted(user: int) | DrawContour(user: int)

  /** The list stored after inserting translation t for a label whose list
      was `prior`: a first insertion also adds the zero translation. */
  function AddTranslation(prior: seq<Point>, t: Point): seq<Point> {
    var list := prior + [t];
    SortByY(if |list| == 1 then list + [Origin] else list)
  }

  /** The label the pending selection refers to: read from the mask at the
      clicked pixel when not yet known. */
  function SelectedLabel(s: Cloner, user: UserEdge.Labels): int
    requires s.idxPos.x >= 0 && s.idx == 0 ==>
               0 <= s.idxPos.y < |user| && s.idxPos.x < |user[s.idxPos.y]|
  {
    if s.idxPos.x >= 0 && s.idx == 0 then user[s.idxPos.y][s.idxPos.x] else s.idx
  }

  /** Record translation clonePos - idxPos for label idx and reset the
      pending selection: only that label's list changes. */
  function Insert(s: Cloner, idx: int): (r: Cloner)
    ensures r.idxPos == Unset && r.clonePos == Unset && r.idx == 0
    ensures r.clones.Keys == s.clones.Keys + {idx}
    ensures forall l :: l in s.clones && l != idx ==> r.clones[l] == s.clones[l]
    ensures SortedByY(r.clones[idx])
  {
    var prior := if idx in s.clones then s.clones[idx] else [];
    var list := AddTranslation(prior, Sub(s.clonePos, s.idxPos));
    var clones := s.clones[idx := list];
    assert clones[idx] == list;
    Reset(s.(clones := clones))
  }

  /** process_new_clone_data; `user` is a byte mask readable at the clicked
      pixel. */
  function Process(s: Cloner, user: UserEdge.Labels): (r: (Cloner, Action))
    requires s.idxPos.x >= 0 && s.idx == 0 ==>
               0 <= s.idxPos.y < |user| && s.idxPos.x < |user[s.idxPos.y]|
               && 0 <= user[s.idxPos.y][s.idxPos.x] <= 255
    requires 0 <= s.idx <= 255
    ensures 0 <= r.0.idx <= 255
    ensures r.1 == ResetSelection || r.1.Inserted? ==> r.0.idxPos == Unset && r.0.clonePos == Unset && r.0.idx == 0
    ensures r.1.Inserted? <==> SelectedLabel(s, user) > 0 && s.clonePos.x > 0
    ensures r.1.Inserted? ==> r.0 == Insert(s, r.1.user) && r.1.user == SelectedLabel(s, user)
    ensures !r.1.Inserted? ==> r.0.clones == s.clones
  {
    var idx := SelectedLabel(s, user);
    if s.idxPos.x >= 0 && s.idx == 0 && idx == 0 then
      (Reset(s), ResetSelection)
    else if idx > 0 && s.clonePos.x > 0 then
      (Insert(s, idx), Inserted(idx))
    else if idx > 0 then
      (s.(idx := idx), DrawContour(idx))
    else
      (s, Nothing)
  }

  /** After a reset, process_new_clone_data does nothing until the next
      click: no label is read, no clone is made, no contour is drawn. */
  lemma ResetIsIdle(s: Cloner, user: UserEdge.Labels)
    ensures Process(Reset(s), user) == (Reset(s), Nothing)
    ensures Reset(Reset(s)) == Reset(s)
  {
  }

  /** Whatever label was selected before, a left click inside the mask makes
      the next frame select the label under the click. */
  lemma LeftClickRereadsLabel(s: Cloner, user: UserEdge.Labels, p: Point)
    requires 0 <= p.y < |user| && 0 <= p.x < |user[p.y]|
    ensures SelectedLabel(Mouse(s, LeftDown, p), user) == user[p.y][p.x]
  {
  }

  /** A left click on a user followed by a right click in a positive column
      makes exactly one clone of that user, whatever the state: the label's
      list gains the translation from the clicked pixel to the paste
      position (and the zero translation if it is the label's first clone)
      and stays sorted; the other labels' lists are untouched. */
  lemma SelectThenPaste(s: Cloner, user: UserEdge.Labels, p: Point, q: Point)
    requires 0 <= p.y < |user| && 0 <= p.x < |user[p.y]| && 0 < user[p.y][p.x] <= 255
    requires q.x > 0 && 0 <= s.idx <= 255
    ensures var l := user[p.y][p.x];
            var prior := if l in s.clones then s.clones[l] else [];
            var r := Process(Mouse(Mouse(s, LeftDown, p), RightDown, q), user);
            && r.1 == Inserted(l)
            && r.0.idxPos == Unset && r.0.clonePos == Unset && r.0.idx == 0
            && r.0.clones.Keys == s.clones.Keys + {l}
            && (forall k :: k in s.clones && k != l ==> r.0.clones[k] == s.clones[k])
            && SortedByY(r.0.clones[l])
            && multiset(r.0.clones[l]) ==
                 multiset(prior) + multiset{Sub(q, p)} + (if |prior| == 0 then multiset{Origin} else multiset{})
  {
    var l := user[p.y][p.x];
    var prior := if l in s.clones then s.clones[l] else [];
    var s2 := Mouse(Mouse(s, LeftDown, p), RightDown, q);
    assert s2.idxPos == p && s2.clonePos == q && s2.idx == 0 && s2.clones == s.clones;
    assert SelectedLabel(s2, user) == l;
    var r := Process(s2, user);
    assert r == (Insert(s2, l), Inserted(l));
    var list := AddTranslation(prior, Sub(q, p));
    assert r.0.clones[l] == list;
    InsertionContents(prior, Sub(q, p));
    if |prior| == 0 {
      assert multiset(list) == multiset{Sub(q, p), Origin};
    } else {
      assert multiset(list) == multiset(prior) + multiset{Sub(q, p)};
    }
  }

  /** A selection over a pixel without a user resets the pending state and
      makes no clone. */
  lemma UnlabelledSelectionResets(s: Cloner, user: UserEdge.Labels)
    requires s.idxPos.x >= 0 && s.idx == 0
    requires 0 <= s.idxPos.y < |user| && s.idxPos.x < |user[s.idxPos.y]|
    requires user[s.idxPos.y][s.idxPos.x] == 0
    ensures Process(s, user) == (Reset(s), ResetSelection)
  {
  }

  /** A paste position in column 0 is ignored: the test is strict. */
  lemma PasteAtColumnZeroIsIgnored(s: Cloner, user: UserEdge.Labels)
    requires s.idxPos.x >= 0 && s.idx == 0
    requires 0 <= s.idxPos.y < |user| && s.idxPos.x < |user[s.idxPos.y]|
    requires 0 < user[s.idxPos.y][s.idxPos.x] <= 255
    requires s.clonePos.x == 0
    ensures Process(s, user).1 == DrawContour(user[s.idxPos.y][s.idxPos.x])
    ensures Process(s, user).0.clones == s.clones
  {
  }

  /** Inserting translation t: the new list holds the prior translations plus
      t, plus the zero translation on a label's first insertion (so that
      list then has length 2), and it is sorted by y. */
  lemma InsertionContents(prior: seq<Point>, t: Point)
    ensures var l := AddTranslation(prior, t);
            SortedByY(l)
            && (|prior| == 0 ==> |l| == 2 && multiset(l) == multiset{t, Origin})
            && (|prior| > 0 ==> |l| == |prior| + 1 && multiset(l) == multiset(prior) + multiset{t})
  {
    if |prior| == 0 {
      assert prior + [t] == [t];
      assert multiset([t] + [Origin]) == multiset{t, Origin};
    }
  }

  /** A complete selection: click on user 1 at (10, 20), paste at (110, 20).
      The label's list becomes the translation (100, 0) and (0, 0). */
  lemma ClickAndPaste()
    ensures var user: UserEdge.Labels := seq(21, r => seq(11, c => 1));
            var s := Mouse(Mouse(InitialCloner, LeftDown, Point(10, 20)), RightDown, Point(110, 20));
            var r := Process(s, user);
            r.1 == Inserted(1) && 1 in r.0.clones
            && multiset(r.0.clones[1]) == multiset{Point(100, 0), Origin}
            && r.0.idx == 0 && r.0.idxPos == Unset
  {
    var user: UserEdge.Labels := seq(21, r => seq(11, c => 1));
    assert user[20][10] == 1;
    InsertionContents([], Point(100, 0));
  }

  //////////////////////////////////////////////////////////////////////////////
  // center_of_mass

  /** Count and coordinate sums of the pixels whose label differs from the
      given one. */
  datatype Stats = Stats(count: nat, sumX: int, sumY: int)

  /** The statistics of row y (columns 0 .. |row| - 1). */
  function RowStats(row: seq<int>, y: nat, idx: int): (r: Stats)
    ensures 0 <= r.sumX <= (|row| - 1) * r.count
    ensures r.sumY == y * r.count
    ensures r.count == 0 <==> forall c :: 0 <= c < |row| ==> row[c] == idx
  {
    if |row| == 0 then Stats(0, 0, 0)
    else
      var n := |row| - 1;
      var s := RowStats(row[..n], y, idx);
      assert forall c :: 0 <= c < n ==> row[..n][c] == row[c];
      WiderRow(s.sumX, n, s.count);
      if row[n] != idx then
        MulSucc(y, s.count);
        Stats(s.count + 1, s.sumX + n, s.sumY + y)
      else
        s
  }

  /** A row one pixel wider: x <= (n - 1) * c gives x <= n * c and
      x + n <= n * (c + 1). */
  lemma WiderRow(x: int, n: nat, c: nat)
    requires x <= (n - 1) * c
    ensures x <= n * c && x + n <= n * (c + 1)
  {
    assert n * (c + 1) == n * c + n;
    assert (n - 1) * c == n * c - c;
  }

  lemma MulSucc(y: int, c: int)
    ensures y * (c + 1) == y * c + y
  {
  }

  function Plus(a: Stats, b: Stats): Stats {
    Stats(a.count + b.count, a.sumX + b.sumX, a.sumY + b.sumY)
  }

  /** The statistics of the whole mask, row after row. */
  function GridStats(user: UserEdge.Labels, idx: int): Stats {
    if |user| == 0 then Stats(0, 0, 0)
    else Plus(GridStats(user[..|user| - 1], idx), RowStats(user[|user| - 1], |user| - 1, idx))
  }

  /** Sums stay within the bounding box of the image:
      0 <= sumX <= (cols - 1) * count and 0 <= sumY <= (rows - 1) * count. */
  lemma {:induction false} GridStatsBounds(user: UserEdge.Labels, cols: nat, idx: int)
    requires UserEdge.Rectangular(user, cols) && cols > 0
    ensures var s := GridStats(user, idx);
            0 <= s.sumX <= (cols - 1) * s.count && 0 <= s.sumY <= (|user| - 1) * s.count
  {
    if |user| > 0 {
      var n := |user| - 1;
      var init := user[..n];
      assert UserEdge.Rectangular(init, cols);
      GridStatsBounds(init, cols, idx);
      var a := GridStats(init, idx);
      var b := RowStats(user[n], n, idx);
      assert GridStats(user, idx) == Plus(a, b);
      assert |user[n]| == cols;
      CombineRows(a, b, n, cols);
    }
  }

  /** Adding row n (its sums bounded by the row's width and index) to the
      statistics of rows 0 .. n - 1 keeps the bounding-box bounds. */
  lemma CombineRows(a: Stats, b: Stats, n: nat, cols: nat)
    requires 0 <= a.sumX <= (cols - 1) * a.count && 0 <= a.sumY <= (n - 1) * a.count
    requires 0 <= b.sumX <= (cols - 1) * b.count && b.sumY == n * b.count
    ensures var s := Plus(a, b);
            0 <= s.sumX <= (cols - 1) * s.count && 0 <= s.sumY <= n * s.count
  {
    MulGrows(n, a.count);
    SumWithin(a.sumY, a.count, b.sumY, b.count, n);
    SumWithin(a.sumX, a.count, b.sumX, b.count, cols - 1);
  }

  /** Nothing is counted exactly when every pixel carries the label. */
  lemma {:induction false} GridCountZero(user: UserEdge.Labels, cols: nat, idx: int)
    requires UserEdge.Rectangular(user, cols)
    ensures GridStats(user, idx).count == 0 <==>
              forall r, c :: 0 <= r < |user| && 0 <= c < cols ==> user[r][c] == idx
  {
    if |user| > 0 {
      var n := |user| - 1;
      var init := user[..n];
      assert UserEdge.Rectangular(init, cols);
      GridCountZero(init, cols, idx);
      assert GridStats(user, idx) == Plus(GridStats(init, idx), RowStats(user[n], n, idx));
      forall r, c | 0 <= r < n && 0 <= c < cols ensures init[r][c] == user[r][c] {
      }
    }
  }

  /** (n - 1) * c <= n * c for a count c. */
  lemma MulGrows(n: int, c: nat)
    ensures (n - 1) * c <= n * c
  {
  }

  /** Bounds x1 <= w * c1 and x2 <= w * c2 add up. */
  lemma SumWithin(x1: int, c1: int, x2: int, c2: int, w: int)
    requires x1 <= w * c1 && x2 <= w * c2
    ensures x1 + x2 <= w * (c1 + c2)
  {
  }

  /** 0 <= a <= k * n with n > 0 gives a / n in [0, k]. */
  lemma DivWithin(a: int, k: int, n: int)
    requires n > 0 && 0 <= a <= k * n
    ensures 0 <= a / n <= k
  {
    var q := a / n;
    assert q * n <= k * n;
    MulCancel(q, k, n);
  }

  /** Cancelling a positive factor from q * n <= k * n. */
  lemma MulCancel(q: int, k: int, n: int)
    requires n > 0 && q * n <= k * n
    ensures q <= k
  {
    assert (k - q) * n == k * n - q * n;
  }

  /** center_of_mass: the mean position of the pixels whose label differs
      from `idx`, truncated; None where the source divides by zero (every
      pixel carries `idx`). */
  function CenterOfMass(user: UserEdge.Labels, idx: int): Option<Point> {
    var s := GridStats(user, idx);
    if s.count == 0 then None else Some(Point(s.sumX / s.count, s.sumY / s.count))
  }

  /** The centre is undefined exactly when every pixel carries the label,
      and otherwise lies inside the image. */
  lemma CenterOfMassInsideImage(user: UserEdge.Labels, cols: nat, idx: int)
    requires UserEdge.Rectangular(user, cols) && cols > 0
    ensures CenterOfMass(user, idx).None? <==>
              forall r, c :: 0 <= r < |user| && 0 <= c < cols ==> user[r][c] == idx
    ensures CenterOfMass(user, idx).Some? ==>
              0 <= CenterOfMass(user, idx).value.x < cols
              && 0 <= CenterOfMass(user, idx).value.y < |user|
  {
    GridStatsBounds(user, cols, idx);
    GridCountZero(user, cols, idx);
    var s := GridStats(user, idx);
    if s.count > 0 {
      DivWithin(s.sumX, cols - 1, s.count);
      DivWithin(s.sumY, |user| - 1, s.count);
    }
  }
}
