/** EffectCollection: the registry of effects, the active-effect index and
    user-detection strategy driven by keys, the routing of mouse events to
    the active effect, and the choice of the user mask each frame. */
module EffectCollection {
  import opened Geometry
  import opened Events
  import opened Unsigned
  import UA = UserAccelerations
  import Particles
  import DepthBackground
  import ColorBackground
  import CU = CloneUser
  import BL = Blur
  import HX = Helices

  /** The registered effects, by their class names; the two colour-background
      instances differ by their background colour (0 black, 255 white). */
  datatype Effect =
    | CopyColorToOut | CopyDepthToOut | CopyUserToOut | Calibrator
    | EqualizeColorToOut | HueToOut | CopyColorToOutAndUserEdge
    | KeepOnlyUserColorBackground(background: int) | KeepOnlyUserVideoBackground
    | SetUserToBlack | RemoveUserQuickFill | RemoveUserInPaint | RemoveUserInPaintScale
    | CloneUser | BackgroundRemover | ComputeUserAccelerations | ParticleThrower
    | Blur | Helices

  /** add_all_effects, in registration order. */
  const Registry: seq<Effect> := [
    CopyColorToOut, CopyDepthToOut, CopyUserToOut, Calibrator,
    EqualizeColorToOut, HueToOut, CopyColorToOutAndUserEdge,
    KeepOnlyUserColorBackground(0), KeepOnlyUserColorBackground(255), KeepOnlyUserVideoBackground,
    SetUserToBlack, RemoveUserQuickFill, RemoveUserInPaint, RemoveUserInPaintScale,
    CloneUser, BackgroundRemover, ComputeUserAccelerations, ParticleThrower,
    Blur, Helices
  ]

  const EffectCount: nat := 20

  /** The user-detection strategies and their enum codes 0, 1, 2. */
  datatype Detection = Nite | DepthBlob | DepthBackgroundRemover

  function Code(d: Detection): int {
    match d
    case Nite => 0
    case DepthBlob => 1
    case DepthBackgroundRemover => 2
  }

  /** user_detection_effect_to_string, on the enum's integer value. */
  function DetectionName(code: int): (s: string)
    ensures s == "unknown" <==> code !in {0, 1, 2}
  {
    if code == 0 then "NITE"
    else if code == 1 then "depth_blob"
    else if code == 2 then "background_remover"
    else "unknown"
  }

  /** The strategy after key 'u'. */
  function NextDetection(d: Detection): Detection {
    match d
    case Nite => DepthBlob
    case DepthBlob => DepthBackgroundRemover
    case DepthBackgroundRemover => Nite
  }

  /** The modelled effects' own states, one per registered instance. */
  datatype EffectStates = EffectStates(
    clone: CU.Cloner,
    colorRemover: ColorBackground.Remover,
    accelerations: UA.Estimator,
    thrower: Particles.Thrower,
    blur: BL.Blurrer,
    helices: seq<HX.Helix>)

  const InitialStates: EffectStates := EffectStates(
    CU.InitialCloner, ColorBackground.InitialRemover, UA.InitialEstimator,
    Particles.InitialThrower, BL.InitialBlurrer, [])

  /** The collection: active index, detection strategy, whether frames are
      displayed (and keys read), the indices whose first_call ran, in
      order, the effects' states and the depth remover used for detection. */
  datatype Collection = Collection(
    effectIdx: int,
    detection: Detection,
    display: bool,
    firstCalls: seq<int>,
    states: EffectStates,
    depthRemover: DepthBackground.DepthRemover)

  predicate Valid(c: Collection) {
    0 <= c.effectIdx < EffectCount
  }

  /** set_effect: make effect i active and run its first_call once. */
  function SetEffect(c: Collection, i: int): (r: Collection)
    ensures r.effectIdx == i && r.firstCalls == c.firstCalls + [i]
    ensures r.detection == c.detection && r.display == c.display
    ensures r.states == c.states && r.depthRemover == c.depthRemover
  {
    c.(effectIdx := i, firstCalls := c.firstCalls + [i])
  }

  /** init (after add_all_effects): effect 0 active under NITE detection,
      its first_call run once, every effect in its initial state. */
  function Init(display: bool): (c: Collection)
    ensures Valid(c) && Registry[c.effectIdx] == CopyColorToOut
    ensures c.detection == Nite && c.firstCalls == [0]
  {
    SetEffect(Collection(0, Nite, display, [], InitialStates, DepthBackground.InitialDepthRemover), 0)
  }

  /** The index after "next": (i + 1) mod 20, wrapping to the first. */
  function NextIndex(i: int): (j: int)
    requires 0 <= i < EffectCount
    ensures 0 <= j < EffectCount
    ensures i < EffectCount - 1 ==> j == i + 1
    ensures i == EffectCount - 1 ==> j == 0
  {
    (i + 1) % EffectCount
  }

  /** The index after "previous": (i + 20 - 1) mod 20 in size_t, wrapping
      to the last. */
  function PreviousIndex(i: int): (j: int)
    requires 0 <= i < EffectCount
    ensures 0 <= j < EffectCount
    ensures i > 0 ==> j == i - 1
    ensures i == 0 ==> j == EffectCount - 1
  {
    Wrap64(i + EffectCount - 1) % EffectCount
  }

  /** The outcome of the key read at the end of fn. */
  datatype KeyResult = Continue(c: Collection) | Exit

  const KeyNext: int := 'n' as int
  const KeySpace: int := ' ' as int
  const KeyPrevious: int := 'p' as int
  const KeyBackspace: int := 8
  const KeyDetection: int := 'u' as int
  const KeyEscape: int := 27

  /** `char c = cv::waitKey(5)`: the key code is cut to its low byte, read
      as a signed char. Every code the handler compares with is below 128, so
      the sign convention of `char` makes no difference to it. */
  function KeyChar(key: int): (ch: int)
    ensures -128 <= ch < 128
    ensures (ch - key) % 256 == 0
  {
    (key + 128) % 256 - 128
  }

  /** The key handling of fn, on the low byte of the key code: next /
      previous effect, next detection strategy, exit on escape. Without
      display no key is read. */
  function OnKey(c: Collection, key: int): (r: KeyResult)
    requires Valid(c)
    ensures !c.display ==> r == Continue(c)
    ensures r.Exit? <==> c.display && KeyChar(key) == KeyEscape
    ensures r.Continue? ==> Valid(r.c) && r.c.states == c.states && r.c.depthRemover == c.depthRemover
    ensures r.Continue? && r.c.effectIdx != c.effectIdx ==> r.c.firstCalls == c.firstCalls + [r.c.effectIdx]
    ensures r.Continue? && r.c.detection != c.detection ==> KeyChar(key) == KeyDetection
    ensures c.display && (KeyChar(key) == KeyNext || KeyChar(key) == KeySpace) ==>
              r == Continue(SetEffect(c, NextIndex(c.effectIdx)))
    ensures c.display && (KeyChar(key) == KeyPrevious || KeyChar(key) == KeyBackspace) ==>
              r == Continue(SetEffect(c, PreviousIndex(c.effectIdx)))
    ensures c.display && KeyChar(key) == KeyDetection ==>
              r == Continue(c.(detection := NextDetection(c.detection)))
  {
    var ch := KeyChar(key);
    if !c.display then Continue(c)
    else if ch == KeyNext || ch == KeySpace then
      Continue(SetEffect(c, NextIndex(c.effectIdx)))
    else if ch == KeyPrevious || ch == KeyBackspace then
      Continue(SetEffect(c, PreviousIndex(c.effectIdx)))
    else if ch == KeyDetection then
      Continue(c.(detection := NextDetection(c.detection)))
    else if ch == KeyEscape then Exit
    else Continue(c)
  }

  /** Only the low byte of the key code matters: codes that differ by a
      multiple of 256 (modifier flags above the low byte) act alike, and
      "no key" (-1) does nothing. */
  lemma OnlyLowByteMatters(c: Collection, key: int, k: int)
    requires Valid(c)
    ensures OnKey(c, key + 256 * k) == OnKey(c, key)
    ensures OnKey(c, -1) == Continue(c)
  {
    assert KeyChar(key + 256 * k) == KeyChar(key) by {
      assert (key + 256 * k + 128) % 256 == (key + 128) % 256;
    }
  }

  /** A key code carrying a modifier flag above the low byte, such as
      0x100000 | 'n', acts as the plain key. */
  lemma ModifierFlagsIgnored(c: Collection)
    requires Valid(c) && c.display
    ensures OnKey(c, 0x100000 + KeyNext) == OnKey(c, KeyNext)
    ensures OnKey(c, 0x100000 + KeyNext).c.effectIdx == NextIndex(c.effectIdx)
  {
    OnlyLowByteMatters(c, KeyNext, 0x1000);
  }

  /** Next wraps from the last effect to the first, previous from the first
      to the last (Helices). */
  lemma NavigationWraps(c: Collection)
    requires Valid(c) && c.display
    ensures c.effectIdx == EffectCount - 1 ==> OnKey(c, KeyNext).c.effectIdx == 0
    ensures c.effectIdx == 0 ==>
              OnKey(c, KeyPrevious).c.effectIdx == EffectCount - 1
              && Registry[OnKey(c, KeyPrevious).c.effectIdx] == Helices
  {
  }

  /** Previous undoes next, and next undoes previous. */
  lemma PreviousUndoesNext(c: Collection, next: int, previous: int)
    requires Valid(c) && c.display
    requires next == KeyNext || next == KeySpace
    requires previous == KeyPrevious || previous == KeyBackspace
    ensures OnKey(OnKey(c, next).c, previous).c.effectIdx == c.effectIdx
    ensures OnKey(OnKey(c, previous).c, next).c.effectIdx == c.effectIdx
  {
  }

  /** Three presses of 'u' restore the detection strategy, and one press
      changes it. */
  lemma DetectionCycles(c: Collection)
    requires Valid(c) && c.display
    ensures OnKey(c, KeyDetection).c.detection != c.detection
    ensures OnKey(OnKey(OnKey(c, KeyDetection).c, KeyDetection).c, KeyDetection).c == c
  {
  }

  /** Without display no key sequence changes anything. */
  function Keys(c: Collection, keys: seq<int>): KeyResult
    requires Valid(c)
    decreases |keys|
  {
    if |keys| == 0 then Continue(c)
    else
      var r := OnKey(c, keys[0]);
      if r.Exit? then Exit else Keys(r.c, keys[1..])
  }

  lemma {:induction false} HeadlessIgnoresKeys(c: Collection, keys: seq<int>)
    requires Valid(c) && !c.display
    ensures Keys(c, keys) == Continue(c)
    decreases |keys|
  {
    if |keys| > 0 {
      HeadlessIgnoresKeys(c, keys[1..]);
    }
  }

  /** Every key sequence keeps the index valid and the states unchanged,
      and each change of effect runs exactly one first_call. */
  lemma {:induction false} KeysKeepIndexValid(c: Collection, keys: seq<int>)
    requires Valid(c)
    ensures Keys(c, keys).Continue? ==>
              Valid(Keys(c, keys).c) && Keys(c, keys).c.states == c.states
              && |Keys(c, keys).c.firstCalls| <= |c.firstCalls| + |keys|
    decreases |keys|
  {
    if |keys| > 0 {
      var r := OnKey(c, keys[0]);
      if r.Continue? {
        KeysKeepIndexValid(r.c, keys[1..]);
      }
    }
  }

  //////////////////////////////////////////////////////////////////////////////
  // mouse_cb

  /** The static mouse callback: the event goes to the active effect only. */
  function OnMouse(c: Collection, event: MouseEvent, p: Point): (r: Collection)
    requires Valid(c)
    ensures r.effectIdx == c.effectIdx && r.detection == c.detection && r.firstCalls == c.firstCalls
    ensures r.depthRemover == c.depthRemover
    ensures Registry[c.effectIdx] != CloneUser ==> r.states.clone == c.states.clone
    ensures Registry[c.effectIdx] != BackgroundRemover ==> r.states.colorRemover == c.states.colorRemover
    ensures Registry[c.effectIdx] != Blur ==> r.states.blur == c.states.blur
    ensures r.states.accelerations == c.states.accelerations && r.states.thrower == c.states.thrower
    ensures r.states.helices == c.states.helices
  {
    var s := c.states;
    match Registry[c.effectIdx]
    case CloneUser => c.(states := s.(clone := CU.Mouse(s.clone, event, p)))
    case BackgroundRemover => c.(states := s.(colorRemover := ColorBackground.Mouse(s.colorRemover, event)))
    case Blur => c.(states := s.(blur := BL.Mouse(s.blur, event)))
    case _ => c
  }

  /** A left click while Blur is active raises only the blur level. */
  lemma ClickReachesActiveEffectOnly(c: Collection, p: Point)
    requires Valid(c) && Registry[c.effectIdx] == Blur
    ensures OnMouse(c, LeftDown, p).states ==
              c.states.(blur := BL.Blurrer(c.states.blur.stdDev + 1))
  {
  }

  //////////////////////////////////////////////////////////////////////////////
  // user detection

  /** The mask handed to the active effect and the next depth remover:
      the sensor's mask under NITE, the depth-blob mask (computed outside
      this model) under DEPTH_BLOB, and the opened foreground mask of the
      depth remover, which only then advances, under
      DEPTH_BACKGROUND_REMOVER. */
  function DetectUsers(c: Collection, user: seq<int>, depth: seq<real>, blobs: seq<int>,
                       open: seq<int> -> seq<int>): (r: (seq<int>, DepthBackground.DepthRemover))
    requires c.detection == DepthBackgroundRemover ==> DepthBackground.Fits(c.depthRemover, depth)
    ensures c.detection == Nite ==> r == (user, c.depthRemover)
    ensures c.detection == DepthBlob ==> r == (blobs, c.depthRemover)
    ensures c.detection == DepthBackgroundRemover ==>
              r.0 == open(DepthBackground.Step(c.depthRemover, depth).mask)
              && r.1 == DepthBackground.Step(c.depthRemover, depth).next
              && |r.1.background| == |depth|
              && forall i :: 0 <= i < |depth| ==> r.1.background[i] >= depth[i]
  {
    match c.detection
    case Nite => (user, c.depthRemover)
    case DepthBlob => (blobs, c.depthRemover)
    case DepthBackgroundRemover =>
      var step := DepthBackground.Step(c.depthRemover, depth);
      assert forall i :: 0 <= i < |depth| ==> step.next.background[i] >= depth[i] by {
        forall i | 0 <= i < |depth| ensures step.next.background[i] >= depth[i] {
          var bg := DepthBackground.Seeded(c.depthRemover, depth);
          assert step.next.background[i] == DepthBackground.Max(bg[i], depth[i]);
        }
      }
      (open(step.mask), step.next)
  }

  /** Under the other strategies the depth background never moves, however
      many frames pass. */
  lemma DepthRemoverIdlesUnlessSelected(c: Collection, user: seq<int>, depth: seq<real>, blobs: seq<int>,
                                        open: seq<int> -> seq<int>)
    requires DepthBackground.Fits(c.depthRemover, depth)
    requires c.detection != DepthBackgroundRemover
    ensures DetectUsers(c, user, depth, blobs, open).1 == c.depthRemover
  {
  }

  //////////////////////////////////////////////////////////////////////////////
  // the active effect's fn

  /** What the active effect's fn sees, derived outside this model from the
      mask DetectUsers chose: its contours, its rows as labels, the lookups
      and sources of time and randomness, the colour frame. */
  datatype FrameInputs = FrameInputs(
    contours: seq<seq<Point>>,
    labels: seq<seq<int>>,
    depthAt: Point -> real,
    helpers: UA.GeometryHelpers,
    draws: nat -> real,
    heading: real -> Vec2,
    dt: real,
    rows: nat,
    cols: nat,
    frame: seq<ColorBackground.Color>,
    gray: seq<int>,
    close: seq<int> -> seq<int>,
    shared: real,
    elapsed: nat -> real,
    fmodPi: real -> real)

  /** What the active effect's fn needs of its inputs. */
  ghost predicate Ready(c: Collection, inputs: FrameInputs) {
    && Valid(c)
    && (Registry[c.effectIdx] == CloneUser ==> CloneReady(c.states.clone, inputs.labels))
    && (Registry[c.effectIdx] == BackgroundRemover ==>
          |inputs.gray| == |inputs.frame| && ColorBackground.Fits(c.states.colorRemover, |inputs.frame|)
          && ColorBackground.SizePreserving(inputs.close))
    && (Registry[c.effectIdx] == ComputeUserAccelerations ==> UA.TotalSize(inputs.contours) <= U32)
    && (Registry[c.effectIdx] == ParticleThrower ==>
          Particles.ValidDraws(inputs.draws) && UA.TotalSize(inputs.contours) <= U32
          && |c.states.thrower.particles| + UA.TotalSize(inputs.contours) < U32)
  }

  /** process_new_clone_data can read the clicked pixel. */
  predicate CloneReady(s: CU.Cloner, labels: seq<seq<int>>) {
    && 0 <= s.idx <= 255
    && (s.idxPos.x >= 0 && s.idx == 0 ==>
          0 <= s.idxPos.y < |labels| && s.idxPos.x < |labels[s.idxPos.y]|
          && 0 <= labels[s.idxPos.y][s.idxPos.x] <= 255)
  }

  /** One call of the active effect's fn: only that effect's state moves.
      In particular ComputeUserAccelerations and ParticleThrower are
      separate instances, each with its own baseline contour. */
  method RunActive(c: Collection, inputs: FrameInputs) returns (r: Collection)
    requires Ready(c, inputs)
    ensures r.effectIdx == c.effectIdx && r.detection == c.detection && r.display == c.display
    ensures r.firstCalls == c.firstCalls && r.depthRemover == c.depthRemover
    ensures r.states.blur == c.states.blur
    ensures Registry[c.effectIdx] != CloneUser ==> r.states.clone == c.states.clone
    ensures Registry[c.effectIdx] != BackgroundRemover ==> r.states.colorRemover == c.states.colorRemover
    ensures Registry[c.effectIdx] != ComputeUserAccelerations ==> r.states.accelerations == c.states.accelerations
    ensures Registry[c.effectIdx] != ParticleThrower ==> r.states.thrower == c.states.thrower
    ensures Registry[c.effectIdx] != Helices ==> r.states.helices == c.states.helices
    ensures Registry[c.effectIdx] == ComputeUserAccelerations
              && (exists i :: 0 <= i < |inputs.contours| && |inputs.contours[i]| >= UA.MinContourSize) ==>
              r.states.accelerations.baseline != []
    ensures Registry[c.effectIdx] == ComputeUserAccelerations && |inputs.contours| == 0 ==>
              r.states.accelerations == c.states.accelerations
    ensures Registry[c.effectIdx] == Helices && |c.states.helices| > 0 ==>
              |r.states.helices| == |c.states.helices|
  {
    var s := c.states;
    match Registry[c.effectIdx]
    case CloneUser => {
      var p := CU.Process(s.clone, inputs.labels);
      r := c.(states := s.(clone := p.0));
    }
    case BackgroundRemover => {
      var t := ColorBackground.Tick(s.colorRemover, inputs.frame, inputs.gray, inputs.close);
      r := c.(states := s.(colorRemover := t.1));
    }
    case ComputeUserAccelerations => {
      UA.ConcatenationSize(inputs.contours);
      var e := UA.Tick(s.accelerations, inputs.contours, inputs.depthAt, inputs.helpers);
      r := c.(states := s.(accelerations := e.next));
    }
    case ParticleThrower => {
      var t, _, _ := Particles.ThrowerTick(s.thrower, inputs.contours, inputs.depthAt, inputs.helpers,
                                        inputs.draws, inputs.heading, inputs.dt, inputs.rows);
      r := c.(states := s.(thrower := t));
    }
    case Helices => {
      var h := HX.TickOnMask(s.helices, inputs.rows, inputs.cols, inputs.labels, inputs.shared,
                             inputs.elapsed, inputs.fmodPi);
      r := c.(states := s.(helices := h));
    }
    case _ => {
      r := c;
    }
  }
}
