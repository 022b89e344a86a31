/** Skeleton helpers: joint lookup by id, the joint id <-> name table, and
    projection of a joint into image coordinates. */
module SkeletonUtils {
  import opened Geometry
  import opened Optional

  /** JointId, an int8_t: the id the lookups and the converter take. */
  type JointId = x: int | -128 <= x < 128

  /** kinect::SkeletonJointName, a short: the id a joint stores. */
  type StoredId = x: int | -32768 <= x < 32768

  /** An integer argument passed as a JointId keeps its low byte, read as
      signed. */
  function ToJointId(n: int): (id: JointId)
    ensures (id - n) % 256 == 0
  {
    (n + 128) % 256 - 128
  }

  /** A tracked joint: its id and its normalised 2-D pose. */
  datatype Joint = Joint(id: StoredId, poseX: real, poseY: real)

  datatype Skeleton = Skeleton(joints: seq<Joint>)

  /** get_index_in_skeleton from position k on. */
  function IndexFrom(joints: seq<Joint>, id: JointId, k: nat): (r: int)
    requires k <= |joints|
    ensures r == -1 || k <= r < |joints|
    ensures r == -1 <==> forall j :: k <= j < |joints| ==> joints[j].id != id
    ensures r != -1 ==> joints[r].id == id && forall j :: k <= j < r ==> joints[j].id != id
    decreases |joints| - k
  {
    if k == |joints| then -1
    else if joints[k].id == id then k
    else IndexFrom(joints, id, k + 1)
  }

  /** get_index_in_skeleton: the index of the first joint carrying `id`,
      -1 when there is none. */
  function IndexInSkeleton(s: Skeleton, id: JointId): (r: int)
    ensures r == -1 || 0 <= r < |s.joints|
    ensures r == -1 <==> forall j :: 0 <= j < |s.joints| ==> s.joints[j].id != id
    ensures r != -1 ==> s.joints[r].id == id && forall j :: 0 <= j < r ==> s.joints[j].id != id
  {
    IndexFrom(s.joints, id, 0)
  }

  //////////////////////////////////////////////////////////////////////////////
  // JointId2StringConverter

  /** An id -> name table, listed in increasing id order as std::map
      iterates it. */
  type Table = seq<(int, string)>

  predicate DistinctIds(t: Table) {
    forall i, j :: 0 <= i < j < |t| ==> t[i].0 != t[j].0
  }

  predicate DistinctNames(t: Table) {
    forall i, j :: 0 <= i < j < |t| ==> t[i].1 != t[j].1
  }

  /** std_utils::direct_search: the name stored under `id`. */
  function Lookup(t: Table, id: int): (r: Option<string>)
    ensures r.None? <==> forall i :: 0 <= i < |t| ==> t[i].0 != id
    ensures r.Some? ==> exists i :: 0 <= i < |t| && t[i] == (id, r.value)
  {
    if |t| == 0 then None
    else if t[0].0 == id then (assert t[0] == (id, t[0].1); Some(t[0].1))
    else
      var r := Lookup(t[1..], id);
      assert forall i :: 0 < i < |t| ==> t[i] == t[1..][i - 1];
      r
  }

  /** std_utils::reverse_search: the id of the first entry (in iteration
      order) whose name is `name`. */
  function ReverseLookup(t: Table, name: string): (r: Option<int>)
    ensures r.None? <==> forall i :: 0 <= i < |t| ==> t[i].1 != name
    ensures r.Some? ==> exists i :: 0 <= i < |t| && t[i] == (r.value, name)
  {
    if |t| == 0 then None
    else if t[0].1 == name then (assert t[0] == (t[0].0, name); Some(t[0].0))
    else
      var r := ReverseLookup(t[1..], name);
      assert forall i :: 0 < i < |t| ==> t[i] == t[1..][i - 1];
      r
  }

  /** In a table with distinct ids and distinct names, each entry is found
      from either side: both searches invert each other on the table. */
  lemma {:induction false} EntryFoundBothWays(t: Table, i: nat)
    requires DistinctIds(t) && DistinctNames(t) && i < |t|
    ensures Lookup(t, t[i].0) == Some(t[i].1)
    ensures ReverseLookup(t, t[i].1) == Some(t[i].0)
  {
    if i > 0 {
      assert t[1..][i - 1] == t[i];
      assert DistinctIds(t[1..]) && DistinctNames(t[1..]);
      EntryFoundBothWays(t[1..], i - 1);
      assert t[0].0 != t[i].0 && t[0].1 != t[i].1;
    }
  }

  /** The joint ids of the skeleton message, SKEL_HEAD = 1 .. SKEL_RIGHT_FOOT = 24. */
  const Head: JointId := 1
  const Neck: JointId := 2
  const Torso: JointId := 3
  const RightFoot: JointId := 24

  /** The converter's table, in id order. */
  const JointNames: Table := [
    (1, "head"), (2, "neck"), (3, "torso"), (4, "waist"),
    (5, "left_collar"), (6, "left_shoulder"), (7, "left_elbow"), (8, "left_wrist"),
    (9, "left_hand"), (10, "left_fingertip"),
    (11, "right_collar"), (12, "right_shoulder"), (13, "right_elbow"), (14, "right_wrist"),
    (15, "right_hand"), (16, "right_fingertip"),
    (17, "left_hip"), (18, "left_knee"), (19, "left_ankle"), (20, "left_foot"),
    (21, "right_hip"), (22, "right_knee"), (23, "right_ankle"), (24, "right_foot")
  ]

  const Error: string := "ERROR"

  /** direct_search: the joint's name, "ERROR" for an id not in the table. */
  function DirectSearch(id: JointId): (r: string)
    ensures (1 <= id <= 24) == (r != Error)
  {
    TableShape();
    assert 1 <= id <= 24 ==> JointNames[id - 1].0 == id;
    var found := Lookup(JointNames, id);
    if found.Some? then found.value else Error
  }

  /** reverse_search: the joint's id, -1 for a name not in the table. */
  function ReverseSearch(name: string): (r: JointId)
    ensures r == -1 || 1 <= r <= 24
  {
    var found := ReverseLookup(JointNames, name);
    if found.Some? then
      TableShape();
      found.value
    else -1
  }

  /** The table holds the 24 ids 1..24 in order, under pairwise distinct
      names none of which is "ERROR". */
  lemma TableShape()
    ensures |JointNames| == 24
    ensures forall i :: 0 <= i < 24 ==> JointNames[i].0 == i + 1
    ensures DistinctIds(JointNames) && DistinctNames(JointNames)
    ensures forall i :: 0 <= i < 24 ==> JointNames[i].1 != Error
  {
    NamesDistinct();
  }

  lemma NamesDistinct()
    ensures DistinctNames(JointNames)
  {
    forall i, j | 0 <= i < j < 24 ensures JointNames[i].1 != JointNames[j].1 {
      assert Signature(JointNames[i].1) != Signature(JointNames[j].1);
    }
  }

  /** Length, first letter and first letter after a "left_" / "right_"
      prefix: enough to tell the joint names apart. */
  function Signature(name: string): (int, char, char) {
    (|name|, if |name| > 0 then name[0] else ' ',
     if |name| > 6 && name[0] == 'r' then name[6]
     else if |name| > 5 && name[0] == 'l' then name[5]
     else ' ')
  }

  /** An int argument is narrowed before the search: 257 and -255 both
      reach direct_search as 1 and name the head, 128 reaches it as -128. */
  lemma NarrowedIdsWrap()
    ensures DirectSearch(ToJointId(257)) == "head"
    ensures DirectSearch(ToJointId(-255)) == "head"
    ensures DirectSearch(ToJointId(128)) == Error
  {
    assert ToJointId(257) == 1 && ToJointId(-255) == 1;
    assert ToJointId(128) == -128;
    assert JointNames[0] == (1, "head");
  }

  /** A joint stored under an id outside the int8_t range is never found:
      no JointId compares equal to it. */
  lemma WideStoredIdNeverFound(s: Skeleton, id: JointId, k: nat)
    requires k < |s.joints| && !(-128 <= s.joints[k].id < 128)
    ensures IndexInSkeleton(s, id) != k
  {
  }

  /** reverse_search(direct_search(id)) == id for every joint id. */
  lemma IdRoundTrip(id: JointId)
    requires 1 <= id <= 24
    ensures ReverseSearch(DirectSearch(id)) == id
  {
    TableShape();
    EntryFoundBothWays(JointNames, id - 1);
  }

  /** direct_search(reverse_search(name)) == name for every joint name. */
  lemma NameRoundTrip(name: string)
    requires ReverseSearch(name) != -1
    ensures DirectSearch(ReverseSearch(name)) == name
  {
    TableShape();
    var found := ReverseLookup(JointNames, name);
    var i :| 0 <= i < |JointNames| && JointNames[i] == (found.value, name);
    EntryFoundBothWays(JointNames, i);
  }

  /** A name maps to -1 exactly when no joint has it; "ERROR" is no
      joint's name. */
  lemma UnknownNames(name: string)
    ensures ReverseSearch(name) == -1 <==> forall i :: 0 <= i < |JointNames| ==> JointNames[i].1 != name
    ensures ReverseSearch(Error) == -1
  {
    TableShape();
  }

  //////////////////////////////////////////////////////////////////////////////
  // get_point_in_skeleton

  /** The double -> int conversion: truncation toward zero. */
  function Trunc(x: real): (n: int)
    ensures x >= 0.0 ==> n as real <= x < n as real + 1.0
    ensures x < 0.0 ==> n as real - 1.0 < x <= n as real
  {
    if x >= 0.0 then x.Floor else -((-x).Floor)
  }

  /** Inside [-w, 2w] x [-h, 2h], bounds included. */
  predicate NearImage(p: Point, w: int, h: int) {
    -w <= p.x <= 2 * w && -h <= p.y <= 2 * h
  }

  /** The joint's pose scaled by the image size and truncated. */
  function Projected(j: Joint, w: int, h: int): Point {
    Point(Trunc(j.poseX * w as real), Trunc(j.poseY * h as real))
  }

  /** get_point_in_skeleton: the joint's pose scaled by the image size, or
      None when the joint is missing or lands too far outside the image. */
  function GetPointInSkeleton(s: Skeleton, id: JointId, w: int, h: int): (r: Option<Point>)
    ensures r.Some? ==> NearImage(r.value, w, h)
    ensures IndexInSkeleton(s, id) == -1 ==> r.None?
  {
    var k := IndexInSkeleton(s, id);
    if k == -1 then None
    else
      var p := Projected(s.joints[k], w, h);
      if p.x < -w || p.x > 2 * w || p.y < -h || p.y > 2 * h then None else Some(p)
  }

  /** The first joint carrying `id`. */
  predicate FirstWithId(s: Skeleton, id: JointId, k: int) {
    0 <= k < |s.joints| && s.joints[k].id == id
    && forall j :: 0 <= j < k ==> s.joints[j].id != id
  }

  /** The point is found exactly when some joint carries the id and the
      projection of the first such joint lies near the image; the point is
      that projection. */
  lemma GetPointCharacterised(s: Skeleton, id: JointId, w: int, h: int)
    ensures GetPointInSkeleton(s, id, w, h).Some? <==>
              exists k :: FirstWithId(s, id, k) && NearImage(Projected(s.joints[k], w, h), w, h)
    ensures forall k :: FirstWithId(s, id, k) && GetPointInSkeleton(s, id, w, h).Some? ==>
              GetPointInSkeleton(s, id, w, h).value == Projected(s.joints[k], w, h)
  {
    var k := IndexInSkeleton(s, id);
    forall k' | FirstWithId(s, id, k') ensures k' == k {
      FirstIsUnique(s, id, k', k);
    }
    if k != -1 {
      assert FirstWithId(s, id, k);
    }
  }

  lemma FirstIsUnique(s: Skeleton, id: JointId, a: int, b: int)
    requires FirstWithId(s, id, a)
    requires b == IndexInSkeleton(s, id)
    ensures a == b
  {
  }

  /** A joint at the image centre of a 640 x 480 frame projects to (320, 240);
      one at normalised x = 2.5 is rejected. */
  lemma ProjectionExamples()
    ensures GetPointInSkeleton(Skeleton([Joint(Head, 0.5, 0.5)]), Head, 640, 480) == Some(Point(320, 240))
    ensures GetPointInSkeleton(Skeleton([Joint(Head, 2.5, 0.5)]), Head, 640, 480).None?
    ensures GetPointInSkeleton(Skeleton([Joint(Neck, 0.5, 0.5)]), Head, 640, 480).None?
  {
  }
}
