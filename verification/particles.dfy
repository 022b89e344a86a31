/** ParticleThrower: acceleration samples above a threshold spawn particles
    that fall under a mass-proportional gravity, are integrated with
    semi-implicit Euler, and are removed once below the bottom of the image. */
module Particles {
  import opened Geometry
  import opened Subsequences
  import opened Unsigned
  import UA = UserAccelerations

  /** Particle::G */
  const G: real := 9.81
  /** A sample spawns a particle when norm / SpawnDivisor > 1. */
  const SpawnDivisor: real := 25.0
  /** Initial speed is SpeedScale * norm along the sample's direction. */
  const SpeedScale: real := 10.0
  /** mass = MinMass + drand48() * MassSpan */
  const MinMass: real := 15.0
  const MassSpan: real := 15.0

  /** A particle; its display colour is random and not modelled. The y axis
      points down the image, so gravity has a positive y component. */
  datatype Particle = Particle(mass: real, position: Vec2, speed: Vec2, accel: Vec2)

  /** Mass in [15, 30) and gravity proportional to it. */
  predicate WellFormed(p: Particle) {
    MinMass <= p.mass < MinMass + MassSpan && p.accel == Vec2(0.0, p.mass * G)
  }

  /** A stream of drand48() results, the k-th consumed by the k-th spawn. */
  ghost predicate ValidDraws(draws: nat -> real) {
    forall k: nat :: 0.0 <= draws(k) < 1.0
  }

  predicate Spawns(a: UA.Acceleration) {
    a.norm / SpawnDivisor > 1.0
  }

  /** The samples that spawn a particle, in order: exactly those whose norm
      passes the threshold, each kept where it was and as often as it
      occurs. */
  function Qualifying(accs: seq<UA.Acceleration>): (r: seq<UA.Acceleration>)
    ensures |r| <= |accs| && IsSubsequence(r, accs)
    ensures forall a :: a in r ==> a in accs && Spawns(a)
    ensures forall a :: a in accs && Spawns(a) ==> a in r
    decreases |accs|
  {
    if |accs| == 0 then []
    else
      var init := accs[..|accs| - 1];
      var last := accs[|accs| - 1];
      var q := Qualifying(init);
      assert accs == init + [last];
      if Spawns(last) then
        AppendBoth(q, init, last);
        q + [last]
      else
        AppendRight(q, init, last);
        q
  }

  /** Qualifying keeps each spawning sample as often as it occurs in
      `accs` and drops every other: with IsSubsequence, this pins the
      result down. */
  lemma {:induction false} QualifyingCounts(accs: seq<UA.Acceleration>)
    ensures forall a :: multiset(Qualifying(accs))[a] == if Spawns(a) then multiset(accs)[a] else 0
    decreases |accs|
  {
    if |accs| > 0 {
      var init := accs[..|accs| - 1];
      var last := accs[|accs| - 1];
      QualifyingCounts(init);
      assert accs == init + [last];
      assert multiset(accs) == multiset(init) + multiset{last};
    }
  }

  /** The particle spawned from sample `a` with the random draw `draw`;
      `heading(t)` is (cos t, sin t). */
  function NewParticle(a: UA.Acceleration, draw: real, heading: real -> Vec2): (p: Particle)
    requires 0.0 <= draw < 1.0
    ensures WellFormed(p)
  {
    var mass := MinMass + draw * MassSpan;
    Particle(mass, ToVec(a.origin), Scale(SpeedScale * a.norm, heading(a.orien)), Vec2(0.0, mass * G))
  }

  /** The spawn loop: one particle per qualifying sample, in sample order,
      the i-th taking the i-th random draw. */
  function Spawn(accs: seq<UA.Acceleration>, draws: nat -> real, heading: real -> Vec2)
      : (r: seq<Particle>)
    requires ValidDraws(draws)
    ensures |r| == |Qualifying(accs)|
    ensures forall i :: 0 <= i < |r| ==> r[i] == NewParticle(Qualifying(accs)[i], draws(i), heading)
  {
    if |accs| == 0 then []
    else
      var last := accs[|accs| - 1];
      var born := Spawn(accs[..|accs| - 1], draws, heading);
      born + (if Spawns(last) then [NewParticle(last, draws(|born|), heading)] else [])
  }

  /** A spawned particle starts at its sample's origin, with speed
      10 * norm along the sample's direction, at rest horizontally in
      acceleration, and with a mass in [15, 30). */
  lemma SpawnedParticles(accs: seq<UA.Acceleration>, draws: nat -> real, heading: real -> Vec2)
    requires ValidDraws(draws)
    ensures var q := Qualifying(accs);
            var born := Spawn(accs, draws, heading);
            forall i :: 0 <= i < |born| ==>
              && born[i].position == ToVec(q[i].origin)
              && born[i].speed == Scale(SpeedScale * q[i].norm, heading(q[i].orien))
              && born[i].accel == Vec2(0.0, born[i].mass * G)
              && MinMass <= born[i].mass < MinMass + MassSpan
  {
  }

  /** Particle::update: speed first, then position with the new speed. */
  function Update(p: Particle, dt: real): (q: Particle)
    ensures q.mass == p.mass && q.accel == p.accel
    ensures q.speed == Add(p.speed, Scale(dt, p.accel))
    ensures q.position == Add(p.position, Add(Scale(dt, p.speed), Scale(dt * dt, p.accel)))
  {
    var speed := Add(p.speed, Scale(dt, p.accel));
    p.(speed := speed, position := Add(p.position, Scale(dt, speed)))
  }

  /** Every particle is updated with the same time step: the sequence keeps
      its length and order, every particle keeps its mass and gravity (so a
      well-formed particle stays well-formed), and gains dt * gravity in
      speed and dt * speed + dt^2 * gravity in position. */
  function Advance(ps: seq<Particle>, dt: real): (r: seq<Particle>)
    ensures |r| == |ps|
    ensures forall i :: 0 <= i < |ps| ==>
              && r[i].mass == ps[i].mass && r[i].accel == ps[i].accel
              && r[i].speed == Add(ps[i].speed, Scale(dt, ps[i].accel))
              && r[i].position == Add(ps[i].position, Add(Scale(dt, ps[i].speed), Scale(dt * dt, ps[i].accel)))
    ensures forall i :: 0 <= i < |ps| ==> (WellFormed(ps[i]) <==> WellFormed(r[i]))
  {
    seq(|ps|, i requires 0 <= i < |ps| => Update(ps[i], dt))
  }

  /** Gravity is constant, so two updates change the speed as one update
      over the summed time: speeds accumulate dt * gravity step by step. */
  lemma SpeedsAccumulate(ps: seq<Particle>, dt1: real, dt2: real)
    ensures var r := Advance(Advance(ps, dt1), dt2);
            forall i :: 0 <= i < |ps| ==>
              r[i].speed == Add(ps[i].speed, Scale(dt1 + dt2, ps[i].accel))
              && r[i].mass == ps[i].mass && r[i].accel == ps[i].accel
  {
    var r1 := Advance(ps, dt1);
    var r := Advance(r1, dt2);
    forall i | 0 <= i < |ps|
      ensures r[i].speed == Add(ps[i].speed, Scale(dt1 + dt2, ps[i].accel))
    {
      assert r1[i].speed == Add(ps[i].speed, Scale(dt1, ps[i].accel));
      assert r[i].speed == Add(r1[i].speed, Scale(dt2, ps[i].accel));
    }
  }

  /** The particles still inside the image: those with y <= rows. */
  function Alive(ps: seq<Particle>, rows: int): seq<Particle> {
    if |ps| == 0 then []
    else
      var last := ps[|ps| - 1];
      Alive(ps[..|ps| - 1], rows) + (if last.position.y > rows as real then [] else [last])
  }

  /** The kill loop removes exactly the particles below the image: the
      survivors are all within it, keep their values and relative order, and
      none that was within it is lost, not even one of two equal particles. */
  lemma AliveProperties(ps: seq<Particle>, rows: int)
    ensures forall p :: p in Alive(ps, rows) ==> p in ps && p.position.y <= rows as real
    ensures forall p :: p in ps && p.position.y <= rows as real ==> p in Alive(ps, rows)
    ensures forall p :: multiset(Alive(ps, rows))[p] ==
              if p.position.y <= rows as real then multiset(ps)[p] else 0
    ensures IsSubsequence(Alive(ps, rows), ps)
    ensures |Alive(ps, rows)| <= |ps|
  {
    AliveInOrder(ps, rows);
    AliveCounts(ps, rows);
  }

  /** The survivors keep their order, lie inside the image, and include
      every particle of the input that does. */
  lemma {:induction false} AliveInOrder(ps: seq<Particle>, rows: int)
    ensures forall p :: p in Alive(ps, rows) ==> p in ps && p.position.y <= rows as real
    ensures forall p :: p in ps && p.position.y <= rows as real ==> p in Alive(ps, rows)
    ensures IsSubsequence(Alive(ps, rows), ps)
    ensures |Alive(ps, rows)| <= |ps|
  {
    if |ps| > 0 {
      var init := ps[..|ps| - 1];
      var last := ps[|ps| - 1];
      AliveInOrder(init, rows);
      assert ps == init + [last];
      if last.position.y > rows as real {
        assert Alive(ps, rows) == Alive(init, rows);
        AppendRight(Alive(init, rows), init, last);
      } else {
        assert Alive(ps, rows) == Alive(init, rows) + [last];
        AppendBoth(Alive(init, rows), init, last);
      }
    }
  }

  /** Each particle inside the image survives as often as it occurs. */
  lemma {:induction false} AliveCounts(ps: seq<Particle>, rows: int)
    ensures forall p :: multiset(Alive(ps, rows))[p] ==
              if p.position.y <= rows as real then multiset(ps)[p] else 0
  {
    if |ps| > 0 {
      var init := ps[..|ps| - 1];
      var last := ps[|ps| - 1];
      AliveCounts(init, rows);
      assert ps == init + [last];
      assert multiset(ps) == multiset(init) + multiset{last};
    }
  }

  /** The kill loop of ParticleThrower::fn: erase the particle and rewind the
      unsigned index, so the element shifted into its place is examined next. */
  method Cull(ps: seq<Particle>, rows: int) returns (r: seq<Particle>)
    requires |ps| < U32
    ensures r == Alive(ps, rows)
  {
    r := ps;
    var idx := 0;
    ghost var j := 0;
    while idx < |r|
      invariant Culling(ps, rows, r, idx, j)
      decreases |r| - idx
    {
      if r[idx].position.y > rows as real {
        KillStep(ps, rows, r, idx, j);
        r := r[..idx] + r[idx + 1..];
        idx := Wrap32(idx - 1);
      } else {
        KeepStep(ps, rows, r, idx, j);
      }
      idx := Wrap32(idx + 1);
      j := j + 1;
    }
    CullDone(ps, rows, r, idx, j);
  }

  /** When the index reaches the end, every input has been examined. */
  lemma CullDone(ps: seq<Particle>, rows: int, r: seq<Particle>, idx: int, j: int)
    requires Culling(ps, rows, r, idx, j) && idx >= |r|
    ensures r == Alive(ps, rows)
  {
    assert ps[..j] == ps;
    assert r[..idx] == r;
  }

  /** The kill loop's invariant: the first `idx` particles of the working
      sequence are the survivors of the first `j` inputs, and the rest is the
      unexamined tail of the input. */
  predicate Culling(ps: seq<Particle>, rows: int, r: seq<Particle>, idx: int, j: int) {
    |ps| < U32
    && 0 <= idx <= |r| && 0 <= j <= |ps| && idx <= j
    && |r| - idx == |ps| - j
    && r[..idx] == Alive(ps[..j], rows)
    && r[idx..] == ps[j..]
  }

  /** Erasing a particle below the image keeps the invariant with the index
      unchanged and one more input examined. */
  lemma KillStep(ps: seq<Particle>, rows: int, r: seq<Particle>, idx: int, j: int)
    requires Culling(ps, rows, r, idx, j) && idx < |r|
    requires r[idx].position.y > rows as real
    ensures Wrap32(Wrap32(idx - 1) + 1) == idx
    ensures Culling(ps, rows, r[..idx] + r[idx + 1..], idx, j + 1)
  {
    RewindThenAdvance(idx);
    assert r[idx] == ps[j];
    assert ps[..j + 1][..j] == ps[..j];
    var r' := r[..idx] + r[idx + 1..];
    assert r'[..idx] == r[..idx];
    assert r'[idx..] == r[idx + 1..];
  }

  /** Keeping a particle inside the image advances the index past it. */
  lemma KeepStep(ps: seq<Particle>, rows: int, r: seq<Particle>, idx: int, j: int)
    requires Culling(ps, rows, r, idx, j) && idx < |r|
    requires r[idx].position.y <= rows as real
    ensures Wrap32(idx + 1) == idx + 1
    ensures Culling(ps, rows, r, idx + 1, j + 1)
  {
    assert r[idx] == ps[j];
    assert ps[..j + 1][..j] == ps[..j];
    assert r[..idx + 1] == r[..idx] + [ps[j]];
  }

  /** The particle part of one ParticleThrower tick: spawn from this tick's
      samples, update all particles with the elapsed time, cull. */
  method Step(ps: seq<Particle>, accs: seq<UA.Acceleration>, draws: nat -> real,
              heading: real -> Vec2, dt: real, rows: int)
      returns (r: seq<Particle>)
    requires ValidDraws(draws)
    requires |ps| + |accs| < U32
    ensures r == Alive(Advance(ps + Spawn(accs, draws, heading), dt), rows)
    ensures |r| <= |ps| + |Qualifying(accs)|
    ensures forall p :: p in r ==> p.position.y <= rows as real
    ensures (forall p :: p in ps ==> WellFormed(p)) ==> forall p :: p in r ==> WellFormed(p)
  {
    var all := ps + Spawn(accs, draws, heading);
    var moved := Advance(all, dt);
    r := Cull(moved, rows);
    AliveInOrder(moved, rows);
    forall p | p in r && (forall p :: p in ps ==> WellFormed(p))
      ensures WellFormed(p)
    {
      var i :| 0 <= i < |moved| && moved[i] == p;
      assert moved[i] == Update(all[i], dt);
      if i >= |ps| {
        assert all[i] == Spawn(accs, draws, heading)[i - |ps|];
      } else {
        assert all[i] in ps;
      }
    }
  }

  /** ParticleThrower keeps its own estimator and its particles. */
  datatype Thrower = Thrower(estimator: UA.Estimator, particles: seq<Particle>)

  const InitialThrower: Thrower := Thrower(UA.InitialEstimator, [])

  /** One ParticleThrower::fn: estimate this tick's samples, then step the
      particles; `rows` is the colour frame's row count. `est` is the
      estimator's tick, whose samples spawn the new particles. */
  method ThrowerTick(t: Thrower, contours: seq<seq<Point>>, depth: Point -> real,
                     h: UA.GeometryHelpers, draws: nat -> real, heading: real -> Vec2,
                     dt: real, rows: int)
      returns (t': Thrower, accs: seq<UA.Acceleration>, est: UA.Estimate)
    requires ValidDraws(draws)
    requires UA.TotalSize(contours) <= U32
    requires |t.particles| + UA.TotalSize(contours) < U32
    // the estimator's part
    ensures accs == est.accelerations && t'.estimator == est.next
    ensures |contours| == 0 ==> est == UA.Estimate([], [], [], t.estimator)
    ensures |contours| > 0 ==> est.concatenated == UA.Flatten(UA.Survivors(contours))
    ensures IsSubsequence(est.simplified, est.concatenated)
    ensures |est.simplified| == 0 ==> accs == [] && t'.estimator == t.estimator
    ensures |est.simplified| > 0 ==> t'.estimator.baseline == est.simplified
    ensures |t.estimator.baseline| == 0 ==> accs == []
    ensures |est.simplified| > 0 && |t.estimator.baseline| > 0 ==>
              accs == UA.Samples(est.simplified, t.estimator.baseline, depth, h)
    ensures forall a :: a in accs ==> a.norm > UA.MinAccNorm
    // the particles' part
    ensures t'.particles == Alive(Advance(t.particles + Spawn(accs, draws, heading), dt), rows)
    ensures |t'.particles| <= |t.particles| + |Qualifying(accs)|
    ensures forall p :: p in t'.particles ==> p.position.y <= rows as real
    ensures (forall p :: p in t.particles ==> WellFormed(p)) ==> forall p :: p in t'.particles ==> WellFormed(p)
  {
    est := UA.Tick(t.estimator, contours, depth, h);
    accs := est.accelerations;
    var ps := Step(t.particles, accs, draws, heading, dt, rows);
    t' := Thrower(est.next, ps);
  }
}
