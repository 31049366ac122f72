/**
 The mass-spring cloth of cloth.py: a row-major grid of joints, the spring
 offset table, the locked-joint list and the in-place RK4 update.

 Scalars are exact reals. The square root is the `SqrtFn` the cloth is
 built with (see module Vector).
 */
module Simulation {
  import opened Vector

  /** One spring template: the grid offset of the neighbour and the rest length. */
  datatype Offset = Offset(di: int, dj: int, rest: real)

  /** The 12 spring templates in the order the constructor appends them:
      4 structural, 4 fold (twice the structural, in the same order), 4 shear. */
  function SpringOffsets(horizontal: real, vertical: real, diagonal: real): (r: seq<Offset>)
    ensures |r| == 12
    ensures r[0].di == -1 && r[0].dj == 0 && r[1].di == 1 && r[1].dj == 0
    ensures r[2].di == 0 && r[2].dj == -1 && r[3].di == 0 && r[3].dj == 1
    ensures forall k :: 0 <= k < 4 ==> r[k].rest == if r[k].dj == 0 then horizontal else vertical
    ensures forall k :: 0 <= k < 4 ==> r[k + 4] == Offset(2 * r[k].di, 2 * r[k].dj, 2.0 * r[k].rest)
    ensures r[8].di == -1 && r[8].dj == -1 && r[9].di == -1 && r[9].dj == 1
    ensures r[10].di == 1 && r[10].dj == -1 && r[11].di == 1 && r[11].dj == 1
    ensures forall k :: 8 <= k < 12 ==> r[k].rest == diagonal
    ensures forall a, b :: 0 <= a < b < 12 ==> r[a].di != r[b].di || r[a].dj != r[b].dj
  {
    [ Offset(-1, 0, horizontal), Offset(1, 0, horizontal),
      Offset(0, -1, vertical), Offset(0, 1, vertical),
      Offset(-2, 0, 2.0 * horizontal), Offset(2, 0, 2.0 * horizontal),
      Offset(0, -2, 2.0 * vertical), Offset(0, 2, 2.0 * vertical),
      Offset(-1, -1, diagonal), Offset(-1, 1, diagonal),
      Offset(1, -1, diagonal), Offset(1, 1, diagonal) ]
  }

  /** The spacing of `divisions` joints spread evenly over `size`. */
  function RestingDistance(size: real, divisions: int): real
    requires 2 <= divisions
  {
    size / ((divisions - 1) as real)
  }

  /** `sqrt(h*h + v*v)`: the rest length of a shear spring. */
  function DiagonalDistance(h: real, v: real, sqrt: SqrtFn): real {
    sqrt.apply(h * h + v * v)
  }

  /** `k * size / (divisions - 1)`: how far along `size` the `k`-th of
      `divisions` evenly spread joints lies. */
  function GridCoordinate(size: real, divisions: int, k: int): real
    requires 2 <= divisions
  {
    (k as real) * size / ((divisions - 1) as real)
  }

  /** The velocity `update` stores: `(k1 + k2*2 + k3*2 + k4) * (1/6)`. */
  function Rk4Average(k1: Vec3, k2: Vec3, k3: Vec3, k4: Vec3): (r: Vec3)
    ensures k1 == k2 == k3 == k4 ==> r == k1
  {
    k1.Add(k2.Scale(2.0)).Add(k3.Scale(2.0)).Add(k4).Scale(1.0 / 6.0)
  }

  /** With `k1 = v` and `kn = v + dn`, the average is `v + (2*d2 + 2*d3 + d4) / 6`. */
  lemma Rk4AverageIncrement(v: Vec3, d2: Vec3, d3: Vec3, d4: Vec3)
    ensures Rk4Average(v, v.Add(d2), v.Add(d3), v.Add(d4))
         == v.Add(d2.Scale(2.0).Add(d3.Scale(2.0)).Add(d4).Scale(1.0 / 6.0))
  {
  }

  /** The average of the increments `(d/2, d/2, d)` that free fall gives the
      three later RK4 stages is `d/2`. */
  lemma FreeFallIncrement(g: Vec3, dt: real)
    ensures g.Scale(0.5 * dt).Scale(2.0).Add(g.Scale(0.5 * dt).Scale(2.0)).Add(g.Scale(dt)).Scale(1.0 / 6.0)
         == g.Scale(0.5 * dt)
  {
  }

  /** Multiplying by a non-negative `n` keeps the order of `a` and `b`. */
  lemma MulMonotone(a: int, b: int, n: int)
    requires a <= b && 0 <= n
    ensures a * n <= b * n
  {
    assert b * n - a * n == (b - a) * n;
  }

  /** Row-major decomposition: `(j*n + i) / n == j` and `(j*n + i) % n == i`. */
  lemma RowMajorDivMod(n: int, j: int, i: int)
    requires 0 < n && 0 <= i < n
    ensures (j * n + i) / n == j && (j * n + i) % n == i
  {
    var t := j * n + i;
    var q, r := t / n, t % n;
    assert q * n + r == t;
    var d := q - j;
    assert d * n == i - r by {
      assert q * n - j * n == (q - j) * n;
    }
    if d > 0 {
      MulMonotone(1, d, n);
    } else if d < 0 {
      MulMonotone(d, -1, n);
    }
  }

  /** A row-major index of an in-range pair is below `n * m`. */
  lemma RowMajorBound(n: int, m: int, j: int, i: int)
    requires 0 <= i < n && 0 <= j < m
    ensures j * n + i < n * m
  {
    MulMonotone(j, m - 1, n);
    assert (m - 1) * n == n * m - n;
  }

  /** A joint id below `n * m` lies in one of the `m` rows of width `n`. */
  lemma RowBelow(id: int, n: int, m: int)
    requires 0 < n && 0 <= id < n * m
    ensures id / n < m
  {
    var q := id / n;
    assert q * n <= id;
    if q >= m {
      MulMonotone(m, q, n);
    }
  }

  class Cloth {
    const iSize: real
    const jSize: real
    const iDivisions: int
    const jDivisions: int
    const pointCount: int
    const springK: real
    const jointMass: real
    const gravity: Vec3
    /** The spring table, built once by the constructor and never changed. */
    const offsets: seq<Offset>
    /** The square root the springs and the diagonal rest length are computed with. */
    const sqrt: SqrtFn

    var positions: seq<Vec3>
    var velocities: seq<Vec3>
    var lockedJoints: seq<(int, int)>

    /** The grid shape the constructor demands (it divides by `divisions - 1`). */
    predicate Shape() {
      2 <= iDivisions && 2 <= jDivisions && pointCount == iDivisions * jDivisions
    }

    ghost predicate Valid()
      reads this
    {
      Shape() && |positions| == pointCount && |velocities| == pointCount
    }

    /** The position the constructor gives joint `(i, j)`. */
    function InitialPosition(origin: Vec3, i: int, j: int): Vec3
      requires Shape()
    {
      origin.Add(Vec3(-0.5 * iSize + GridCoordinate(iSize, iDivisions, i),
                      jSize - GridCoordinate(jSize, jDivisions, j),
                      jSize))
    }

    constructor (origin: Vec3, iSize: real, jSize: real, iDivisions: int, jDivisions: int,
                 springK: real, massPerM2: real, absGravity: real, sqrt: SqrtFn)
      requires 2 <= iDivisions && 2 <= jDivisions
      ensures Valid()
      ensures this.iSize == iSize && this.jSize == jSize && this.sqrt == sqrt
      ensures this.iDivisions == iDivisions && this.jDivisions == jDivisions
      ensures pointCount == iDivisions * jDivisions
      ensures this.springK == springK
      ensures jointMass == massPerM2 * iSize * jSize / ((iDivisions * jDivisions) as real)
      ensures gravity == Vec3(0.0, 0.0, -absGravity)
      ensures forall id :: 0 <= id < pointCount ==>
        positions[id] == InitialPosition(origin, GetIJ(id).0, GetIJ(id).1)
      ensures forall id :: 0 <= id < pointCount ==> velocities[id] == Zero
      ensures lockedJoints == []
      ensures var h, v := RestingDistance(iSize, iDivisions), RestingDistance(jSize, jDivisions);
              offsets == SpringOffsets(h, v, DiagonalDistance(h, v, sqrt))
    {
      this.iSize, this.jSize := iSize, jSize;
      this.iDivisions, this.jDivisions := iDivisions, jDivisions;
      pointCount := iDivisions * jDivisions;
      this.springK := springK;
      jointMass := massPerM2 * iSize * jSize / ((iDivisions * jDivisions) as real);
      gravity := Vec3(0.0, 0.0, -absGravity);
      var horizontalRestingDistance := RestingDistance(iSize, iDivisions);
      var verticalRestingDistance := RestingDistance(jSize, jDivisions);
      var diagonalRestingDistance := DiagonalDistance(horizontalRestingDistance, verticalRestingDistance, sqrt);
      offsets := SpringOffsets(horizontalRestingDistance, verticalRestingDistance, diagonalRestingDistance);
      this.sqrt := sqrt;
      new;
      positions, velocities := LayOutJoints(origin);
      lockedJoints := [];
    }

    /** The nested loops of the constructor: row by row, column by column,
        one position and one zero velocity per joint. */
    method LayOutJoints(origin: Vec3) returns (positions: seq<Vec3>, velocities: seq<Vec3>)
      requires Shape()
      ensures |positions| == pointCount && |velocities| == pointCount
      ensures forall id :: 0 <= id < pointCount ==>
        positions[id] == InitialPosition(origin, GetIJ(id).0, GetIJ(id).1)
      ensures forall id :: 0 <= id < pointCount ==> velocities[id] == Zero
    {
      positions := [];
      velocities := [];
      for j := 0 to jDivisions
        invariant |positions| == j * iDivisions && |velocities| == j * iDivisions
        invariant forall id :: 0 <= id < |positions| ==>
          positions[id] == InitialPosition(origin, GetIJ(id).0, GetIJ(id).1)
        invariant forall id :: 0 <= id < |velocities| ==> velocities[id] == Zero
      {
        for i := 0 to iDivisions
          invariant |positions| == j * iDivisions + i && |velocities| == j * iDivisions + i
          invariant forall id :: 0 <= id < |positions| ==>
            positions[id] == InitialPosition(origin, GetIJ(id).0, GetIJ(id).1)
          invariant forall id :: 0 <= id < |velocities| ==> velocities[id] == Zero
        {
          RowMajorDivMod(iDivisions, j, i);
          assert GetIJ(j * iDivisions + i) == (i, j);
          positions := positions + [InitialPosition(origin, i, j)];
          velocities := velocities + [Zero];
        }
        assert (j + 1) * iDivisions == j * iDivisions + iDivisions;
      }
      assert jDivisions * iDivisions == pointCount;
    }

    /** `getIJ(id)`: column `id % iDivisions` (Python's floor modulo) and row
        `int(id / iDivisions)` (true division truncated toward zero). */
    function GetIJ(id: int): (r: (int, int))
      requires Shape()
      ensures 0 <= r.0 < iDivisions
      ensures 0 <= id ==> 0 <= r.1 && r.1 * iDivisions + r.0 == id
      ensures 0 <= id < pointCount ==> r.1 < jDivisions
    {
      var r := (id % iDivisions, if 0 <= id then id / iDivisions else -((-id) / iDivisions));
      assert 0 <= id < pointCount ==> r.1 < jDivisions by {
        if 0 <= id < pointCount {
          RowBelow(id, iDivisions, jDivisions);
        }
      }
      r
    }

    /** `getId(i, j)`: the row-major index of an in-range pair, `-1` otherwise. */
    function GetId(i: int, j: int): (r: int)
      requires Shape()
      ensures r == -1 <==> !(0 <= i < iDivisions && 0 <= j < jDivisions)
      ensures r != -1 ==> 0 <= r < pointCount
    {
      if i < 0 || i >= iDivisions then -1
      else if j < 0 || j >= jDivisions then -1
      else
        RowMajorBound(iDivisions, jDivisions, j, i);
        j * iDivisions + i
    }

    /** `getIJ` undoes `getId` on every in-grid pair. */
    lemma IJOfId(i: int, j: int)
      requires Shape() && 0 <= i < iDivisions && 0 <= j < jDivisions
      ensures GetIJ(GetId(i, j)) == (i, j)
    {
      RowMajorDivMod(iDivisions, j, i);
    }

    /** `getId` undoes `getIJ` on every joint id. */
    lemma IdOfIJ(id: int)
      requires Shape() && 0 <= id < pointCount
      ensures GetId(GetIJ(id).0, GetIJ(id).1) == id
    {
    }

    /** `lockJoint(i, j)`: appends, with neither a range check nor deduplication. */
    method LockJoint(i: int, j: int)
      modifies this`lockedJoints
      ensures lockedJoints == old(lockedJoints) + [(i, j)]
      ensures (i, j) in lockedJoints
      ensures forall p :: p in old(lockedJoints) ==> p in lockedJoints
    {
      lockedJoints := lockedJoints + [(i, j)];
    }

    /** `isJointLocked(i, j)`: a linear scan of the locked list. */
    method IsJointLocked(i: int, j: int) returns (locked: bool)
      ensures locked <==> (i, j) in lockedJoints
    {
      for k := 0 to |lockedJoints|
        invariant forall m :: 0 <= m < k ==> lockedJoints[m] != (i, j)
      {
        var (lockedI, lockedJ) := lockedJoints[k];
        if lockedI == i && lockedJ == j {
          return true;
        }
      }
      return false;
    }

    /** The neighbour the `m`-th spring of joint `(i, j)` leads to, or `-1`. */
    function NeighbourAt(i: int, j: int, m: int): (n: int)
      requires Shape() && 0 <= m < |offsets|
      ensures n == -1 || 0 <= n < pointCount
    {
      GetId(i + offsets[m].di, j + offsets[m].dj)
    }

    /** The spring force summed over the first `k` springs, skipping those
        whose neighbour is off the grid, as `computeDeltaVelocity` does. */
    ghost function ForceSum(ps: seq<Vec3>, i: int, j: int, position: Vec3, k: nat): Vec3
      requires Shape() && |ps| == pointCount && k <= |offsets|
      decreases k
    {
      if k == 0 then Zero
      else
        var acc := ForceSum(ps, i, j, position, k - 1);
        var n := NeighbourAt(i, j, k - 1);
        if n == -1 then acc
        else
          acc.Add(SpringForce(ps[n].Sub(position), offsets[k - 1].rest))
    }

    /** The pull of one spring along `toNeighbor`: the unit direction scaled by
        `springK` and by the stretch beyond the rest length. */
    function SpringForce(toNeighbor: Vec3, rest: real): Vec3 {
      toNeighbor.Normalized(sqrt).Scale(springK).Scale(toNeighbor.Norm(sqrt) - rest)
    }

    /** The spring step of the `computeDeltaVelocity` loop: normalizes a copy
        of `toNeighbor` in place and scales it by `springK` and the stretch. */
    method ComputeSpringForce(toNeighbor: Vec3, rest: real) returns (force: Vec3)
      ensures force == SpringForce(toNeighbor, rest)
    {
      var direction := new MutVec3(toNeighbor);
      var distance := direction.Normalize(sqrt);
      force := direction.Value().Scale(springK).Scale(distance - rest);
    }

    /** The velocity change of joint `(i, j)` placed at `position`, over `dt`,
        with the neighbours where `ps` has them. */
    ghost function DeltaVelocity(ps: seq<Vec3>, i: int, j: int, position: Vec3, dt: real): Vec3
      requires Shape() && |ps| == pointCount && jointMass != 0.0
    {
      ForceSum(ps, i, j, position, |offsets|).Scale(1.0 / jointMass).Add(gravity).Scale(dt)
    }

    /** `computeDeltaVelocity(i, j, position, dt)`: reads the stored positions
        of the in-grid neighbours and changes no state. */
    method ComputeDeltaVelocity(i: int, j: int, position: Vec3, diffTime: real) returns (deltaVelocity: Vec3)
      requires Valid() && jointMass != 0.0
      ensures deltaVelocity == DeltaVelocity(positions, i, j, position, diffTime)
    {
      var forceAccum := Zero;
      for k := 0 to |offsets|
        invariant forceAccum == ForceSum(positions, i, j, position, k)
      {
        var neighborId := GetId(i + offsets[k].di, j + offsets[k].dj);
        if neighborId == -1 {
          continue;
        }
        var neighborPosition := positions[neighborId];
        var force := ComputeSpringForce(neighborPosition.Sub(position), offsets[k].rest);
        forceAccum := forceAccum.Add(force);
      }
      var acceleration := forceAccum.Scale(1.0 / jointMass).Add(gravity);
      deltaVelocity := acceleration.Scale(diffTime);
    }

    /** The new position and velocity of one joint: RK4 stages whose forces
        are all evaluated against `ps`. */
    ghost function Rk4(ps: seq<Vec3>, i: int, j: int, position: Vec3, velocity: Vec3, dt: real): (Vec3, Vec3)
      requires Shape() && |ps| == pointCount && jointMass != 0.0
    {
      var k1 := velocity;
      var k2 := velocity.Add(DeltaVelocity(ps, i, j, position.Add(k1.Scale(0.5).Scale(dt)), 0.5 * dt));
      var k3 := velocity.Add(DeltaVelocity(ps, i, j, position.Add(k2.Scale(0.5).Scale(dt)), 0.5 * dt));
      var k4 := velocity.Add(DeltaVelocity(ps, i, j, position.Add(k3.Scale(dt)), dt));
      var v := Rk4Average(k1, k2, k3, k4);
      (position.Add(v.Scale(dt)), v)
    }

    /** One iteration of the `update` loop: a locked joint is skipped, an
        unlocked one has its entry `id` overwritten and nothing else. */
    ghost function JointStep(ps: seq<Vec3>, vs: seq<Vec3>, id: int, dt: real): (r: (seq<Vec3>, seq<Vec3>))
      reads this`lockedJoints
      requires Shape() && |ps| == pointCount && |vs| == pointCount && 0 <= id < pointCount
      requires jointMass != 0.0
      ensures |r.0| == pointCount && |r.1| == pointCount
      ensures forall n :: 0 <= n < pointCount && n != id ==> r.0[n] == ps[n] && r.1[n] == vs[n]
      ensures GetIJ(id) in lockedJoints ==> r == (ps, vs)
    {
      var (i, j) := GetIJ(id);
      if (i, j) in lockedJoints then (ps, vs)
      else
        var pv := Rk4(ps, i, j, ps[id], vs[id], dt);
        (ps[id := pv.0], vs[id := pv.1])
    }

    /** An unlocked joint takes the RK4 result computed from the current lists. */
    lemma JointStepUnlocked(ps: seq<Vec3>, vs: seq<Vec3>, id: int, dt: real)
      requires Shape() && |ps| == pointCount && |vs| == pointCount && 0 <= id < pointCount
      requires jointMass != 0.0 && GetIJ(id) !in lockedJoints
      ensures var (i, j) := GetIJ(id);
        var pv := Rk4(ps, i, j, ps[id], vs[id], dt);
        JointStep(ps, vs, id, dt) == (ps[id := pv.0], vs[id := pv.1])
    {
    }

    /** The state once the in-place sweep of `update` has processed ids `0 .. k-1`:
        each joint reads the positions its predecessors have already overwritten. */
    ghost function SweepTo(ps: seq<Vec3>, vs: seq<Vec3>, dt: real, k: nat): (r: (seq<Vec3>, seq<Vec3>))
      reads this`lockedJoints
      requires Shape() && |ps| == pointCount && |vs| == pointCount && k <= pointCount
      requires jointMass != 0.0
      ensures |r.0| == pointCount && |r.1| == pointCount
      decreases k
    {
      if k == 0 then (ps, vs)
      else
        var prev := SweepTo(ps, vs, dt, k - 1);
        JointStep(prev.0, prev.1, k - 1, dt)
    }

    /** The body of the `update` loop for an unlocked joint `(i, j)`: the four
        RK4 stages, each one's forces computed from the current positions. */
    method Rk4Step(i: int, j: int, position: Vec3, velocity: Vec3, diffTime: real)
      returns (newPosition: Vec3, newVelocity: Vec3)
      requires Valid() && jointMass != 0.0
      ensures (newPosition, newVelocity) == Rk4(positions, i, j, position, velocity, diffTime)
    {
      var k1 := velocity;
      var d2 := ComputeDeltaVelocity(i, j, position.Add(k1.Scale(0.5).Scale(diffTime)), 0.5 * diffTime);
      var k2 := velocity.Add(d2);
      var d3 := ComputeDeltaVelocity(i, j, position.Add(k2.Scale(0.5).Scale(diffTime)), 0.5 * diffTime);
      var k3 := velocity.Add(d3);
      var d4 := ComputeDeltaVelocity(i, j, position.Add(k3.Scale(diffTime)), diffTime);
      var k4 := velocity.Add(d4);
      newVelocity := Rk4Average(k1, k2, k3, k4);
      newPosition := position.Add(newVelocity.Scale(diffTime));
    }

    /** `update(diffTime)`: one RK4 tick, joint by joint in ascending id order,
        writing each result back into the shared lists at once. */
    method Update(diffTime: real)
      requires Valid() && jointMass != 0.0
      modifies this`positions, this`velocities
      ensures Valid()
      ensures (positions, velocities) == SweepTo(old(positions), old(velocities), diffTime, pointCount)
    {
      ghost var ps0, vs0 := positions, velocities;
      for id := 0 to pointCount
        invariant Valid()
        invariant (positions, velocities) == SweepTo(ps0, vs0, diffTime, id)
      {
        assert SweepTo(ps0, vs0, diffTime, id + 1) == JointStep(positions, velocities, id, diffTime);
        var (i, j) := GetIJ(id);
        var locked := IsJointLocked(i, j);
        if locked {
          continue;
        }
        var position, velocity := Rk4Step(i, j, positions[id], velocities[id], diffTime);
        JointStepUnlocked(positions, velocities, id, diffTime);
        positions := positions[id := position];
        velocities := velocities[id := velocity];
      }
    }

    // ---------------------------------------------------------------------
    // Properties of the update
    // ---------------------------------------------------------------------

    /** A joint whose coordinates are locked keeps its position and velocity
        through every prefix of the sweep. */
    lemma {:induction false} SweepKeepsLocked(ps: seq<Vec3>, vs: seq<Vec3>, dt: real, k: nat, id: int)
      requires Shape() && |ps| == pointCount && |vs| == pointCount && k <= pointCount
      requires jointMass != 0.0
      requires 0 <= id < pointCount && GetIJ(id) in lockedJoints
      ensures SweepTo(ps, vs, dt, k).0[id] == ps[id] && SweepTo(ps, vs, dt, k).1[id] == vs[id]
    {
      if k > 0 {
        SweepKeepsLocked(ps, vs, dt, k - 1, id);
      }
    }

    /** A locked in-grid joint `(i, j)` is not moved by `update`. */
    lemma LockedJointStaysPut(ps: seq<Vec3>, vs: seq<Vec3>, dt: real, i: int, j: int)
      requires Shape() && |ps| == pointCount && |vs| == pointCount && jointMass != 0.0
      requires (i, j) in lockedJoints && 0 <= i < iDivisions && 0 <= j < jDivisions
      ensures SweepTo(ps, vs, dt, pointCount).0[GetId(i, j)] == ps[GetId(i, j)]
      ensures SweepTo(ps, vs, dt, pointCount).1[GetId(i, j)] == vs[GetId(i, j)]
    {
      IJOfId(i, j);
      SweepKeepsLocked(ps, vs, dt, pointCount, GetId(i, j));
    }

    /** The in-place read pattern: after joints `0 .. k-1` have been processed,
        the entry of an earlier joint `n < k` is the value written when `n`
        was processed, and the entry of a later joint is still the pre-call
        value. Joint `k` evaluates its forces against exactly this state. */
    lemma {:induction false} SweepReadsInPlace(ps: seq<Vec3>, vs: seq<Vec3>, dt: real, k: nat, n: int)
      requires Shape() && |ps| == pointCount && |vs| == pointCount && k <= pointCount
      requires jointMass != 0.0 && 0 <= n < pointCount
      ensures n < k ==>
        SweepTo(ps, vs, dt, k).0[n] == SweepTo(ps, vs, dt, n + 1).0[n] &&
        SweepTo(ps, vs, dt, k).1[n] == SweepTo(ps, vs, dt, n + 1).1[n]
      ensures k <= n ==> SweepTo(ps, vs, dt, k).0[n] == ps[n] && SweepTo(ps, vs, dt, k).1[n] == vs[n]
    {
      if k > 0 && k != n + 1 {
        SweepReadsInPlace(ps, vs, dt, k - 1, n);
        var prev := SweepTo(ps, vs, dt, k - 1);
        assert SweepTo(ps, vs, dt, k) == JointStep(prev.0, prev.1, k - 1, dt);
      }
    }

    /** Two position lists that agree on every in-grid neighbour of `(i, j)`. */
    ghost predicate AgreeOnNeighbours(ps: seq<Vec3>, qs: seq<Vec3>, i: int, j: int)
      requires Shape() && |ps| == pointCount && |qs| == pointCount
    {
      forall m :: 0 <= m < |offsets| && NeighbourAt(i, j, m) != -1 ==>
        ps[NeighbourAt(i, j, m)] == qs[NeighbourAt(i, j, m)]
    }

    /** The force sum consults only the in-grid neighbours named by the offsets. */
    lemma {:induction false} ForceSumReadsOnlyNeighbours(ps: seq<Vec3>, qs: seq<Vec3>, i: int, j: int, position: Vec3, k: nat)
      requires Shape() && |ps| == pointCount && |qs| == pointCount && k <= |offsets|
      requires AgreeOnNeighbours(ps, qs, i, j)
      ensures ForceSum(ps, i, j, position, k) == ForceSum(qs, i, j, position, k)
    {
      if k > 0 {
        ForceSumReadsOnlyNeighbours(ps, qs, i, j, position, k - 1);
      }
    }

    /** `computeDeltaVelocity` depends on the stored positions only through the
        in-grid neighbours. */
    lemma DeltaVelocityReadsOnlyNeighbours(ps: seq<Vec3>, qs: seq<Vec3>, i: int, j: int, position: Vec3, dt: real)
      requires Shape() && |ps| == pointCount && |qs| == pointCount && jointMass != 0.0
      requires AgreeOnNeighbours(ps, qs, i, j)
      ensures DeltaVelocity(ps, i, j, position, dt) == DeltaVelocity(qs, i, j, position, dt)
    {
      ForceSumReadsOnlyNeighbours(ps, qs, i, j, position, |offsets|);
    }

    /** With `springK == 0` every spring contributes the zero vector. */
    lemma {:induction false} ForceSumWithoutStiffness(ps: seq<Vec3>, i: int, j: int, position: Vec3, k: nat)
      requires Shape() && |ps| == pointCount && k <= |offsets| && springK == 0.0
      ensures ForceSum(ps, i, j, position, k) == Zero
    {
      if k > 0 {
        ForceSumWithoutStiffness(ps, i, j, position, k - 1);
      }
    }

    /** With `springK == 0` the velocity change is gravity times the step. */
    lemma DeltaVelocityWithoutStiffness(ps: seq<Vec3>, i: int, j: int, position: Vec3, dt: real)
      requires Shape() && |ps| == pointCount && jointMass != 0.0 && springK == 0.0
      ensures DeltaVelocity(ps, i, j, position, dt) == gravity.Scale(dt)
    {
      ForceSumWithoutStiffness(ps, i, j, position, |offsets|);
    }

    /** Without spring forces one step of an unlocked joint gains only half of
        `gravity * dt` in velocity: the stages are averaged as velocities, and
        `k1` carries no acceleration at all. */
    lemma FreeFallStep(ps: seq<Vec3>, vs: seq<Vec3>, id: int, dt: real)
      requires Shape() && |ps| == pointCount && |vs| == pointCount && 0 <= id < pointCount
      requires jointMass != 0.0 && springK == 0.0 && GetIJ(id) !in lockedJoints
      ensures JointStep(ps, vs, id, dt).1[id] == vs[id].Add(gravity.Scale(0.5 * dt))
      ensures JointStep(ps, vs, id, dt).0[id] == ps[id].Add(vs[id].Add(gravity.Scale(0.5 * dt)).Scale(dt))
    {
      var (i, j) := GetIJ(id);
      var p, v := ps[id], vs[id];
      var k1 := v;
      var k2 := v.Add(DeltaVelocity(ps, i, j, p.Add(k1.Scale(0.5).Scale(dt)), 0.5 * dt));
      DeltaVelocityWithoutStiffness(ps, i, j, p.Add(k1.Scale(0.5).Scale(dt)), 0.5 * dt);
      var k3 := v.Add(DeltaVelocity(ps, i, j, p.Add(k2.Scale(0.5).Scale(dt)), 0.5 * dt));
      DeltaVelocityWithoutStiffness(ps, i, j, p.Add(k2.Scale(0.5).Scale(dt)), 0.5 * dt);
      var k4 := v.Add(DeltaVelocity(ps, i, j, p.Add(k3.Scale(dt)), dt));
      DeltaVelocityWithoutStiffness(ps, i, j, p.Add(k3.Scale(dt)), dt);
      var g := gravity;
      assert Rk4Average(k1, k2, k3, k4) == v.Add(g.Scale(0.5 * dt)) by {
        Rk4AverageIncrement(v, g.Scale(0.5 * dt), g.Scale(0.5 * dt), g.Scale(dt));
        FreeFallIncrement(g, dt);
      }
    }

    /** If the three force evaluations give no velocity change, the joint keeps
        its velocity and moves by `velocity * dt`. */
    lemma ZeroDeltaStep(ps: seq<Vec3>, vs: seq<Vec3>, id: int, dt: real)
      requires Shape() && |ps| == pointCount && |vs| == pointCount && 0 <= id < pointCount
      requires jointMass != 0.0 && GetIJ(id) !in lockedJoints
      requires var (i, j) := GetIJ(id);
        && DeltaVelocity(ps, i, j, ps[id].Add(vs[id].Scale(0.5).Scale(dt)), 0.5 * dt) == Zero
        && DeltaVelocity(ps, i, j, ps[id].Add(vs[id].Scale(dt)), dt) == Zero
      ensures JointStep(ps, vs, id, dt).1[id] == vs[id]
      ensures JointStep(ps, vs, id, dt).0[id] == ps[id].Add(vs[id].Scale(dt))
    {
      var v := vs[id];
      assert v.Add(Zero) == v;
      Rk4AverageIncrement(v, Zero, Zero, Zero);
    }

    // ---------------------------------------------------------------------
    // Repeated ticks
    // ---------------------------------------------------------------------

    /** The state after one `update` call per entry of `dts`, in order. */
    ghost function Run(ps: seq<Vec3>, vs: seq<Vec3>, dts: seq<real>): (r: (seq<Vec3>, seq<Vec3>))
      reads this`lockedJoints
      requires Shape() && |ps| == pointCount && |vs| == pointCount && jointMass != 0.0
      ensures |r.0| == pointCount && |r.1| == pointCount
      decreases |dts|
    {
      if dts == [] then (ps, vs)
      else
        var next := SweepTo(ps, vs, dts[0], pointCount);
        Run(next.0, next.1, dts[1..])
    }

    /** However many ticks run, a locked in-grid joint keeps its state. */
    lemma {:induction false} LockedJointFrozenOverRun(ps: seq<Vec3>, vs: seq<Vec3>, dts: seq<real>, i: int, j: int)
      requires Shape() && |ps| == pointCount && |vs| == pointCount && jointMass != 0.0
      requires (i, j) in lockedJoints && 0 <= i < iDivisions && 0 <= j < jDivisions
      ensures Run(ps, vs, dts).0[GetId(i, j)] == ps[GetId(i, j)]
      ensures Run(ps, vs, dts).1[GetId(i, j)] == vs[GetId(i, j)]
      decreases |dts|
    {
      if dts != [] {
        var next := SweepTo(ps, vs, dts[0], pointCount);
        LockedJointStaysPut(ps, vs, dts[0], i, j);
        LockedJointFrozenOverRun(next.0, next.1, dts[1..], i, j);
      }
    }
  }
}
