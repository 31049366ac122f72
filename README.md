# RK4 cloth simulator: a Dafny model of its discrete core

The simulator moves a rectangular cloth, a grid of `iDivisions` by
`jDivisions` point masses ("joints"). Springs connect every joint to up to
12 neighbours: 4 structural, 4 fold and 4 shear. Each tick advances every
unlocked joint with a fourth-order Runge-Kutta step. The render side turns the
joint positions into a triangle mesh with per-joint normals.

The model has three modules, one per source file:

- `Vector` (`vector.dfy`, vec3.py). `Vec3` is a value datatype with
  componentwise `Add`, `Sub` and `Scale`, the padded `Norm`, and `Cross`
  exactly as written. `MutVec3` is a class whose `Normalize` overwrites its
  fields in place and returns the norm it divided by.
- `Simulation` (`cloth.dfy`, cloth.py). `Cloth` is a class:
  - The grid shape, the spring table, the mass and gravity are constants.
  - `positions`, `velocities` and `lockedJoints` are sequence fields.
  - The constructor's nested loops, the locked-list scan, the force loop of
    `computeDeltaVelocity` and the per-tick `update` loop are methods with
    loop invariants. `LayOutJoints` is proved against the compiled
    `InitialPosition`, `IsJointLocked` against sequence membership, and the
    force and tick loops against the ghost functions `DeltaVelocity` (built on
    `ForceSum`) and `SweepTo`.
  - `update` is modelled *in place*: joint `id` reads the positions that
    joints `0 .. id-1` have already overwritten in the same tick.
    `SweepTo(ps, vs, dt, k)` is the state once ids `0 .. k-1` are processed.
- `Geometry` (`cloth_geometry.dfy`, cloth_geometry.py):
  - `BuildTriangles` is the constructor's triangle loop. One timestep,
    capped at 1/20, is `CappedStep`.
  - `ClothGeometry` is a class holding the cloth, the triangle list, the
    vertex and normal columns as sequences, and `oldTime`.
  - `UpdatePositions`, `UpdateNormals` and `Update` are its per-frame methods.

Scalars are exact `real`s. `math.sqrt` is a parameter (`SqrtFn`): any real
function whose results are non-negative.

Three behaviours of the code are easy to misread; the model keeps each as
written and states it in a lemma:

- **Reads during `update` are not from a snapshot.** The code overwrites
  `positions[id]` at once (cloth.py:63), and `computeDeltaVelocity` reads the
  current list (cloth.py:72). So joint `id` sees the positions that joints
  `0 .. id-1` wrote earlier in the same tick (`SweepReadsInPlace`).
- **`cross` is not the textbook cross product.** Its z component is
  `x*other.y - y*other.z` (vec3.py:31). A vector's cross product with itself
  need not be zero (`CrossIsNotTextbook`). The normals use the product as
  written.
- **Free fall gains half the velocity.** The code averages the four RK4 stages
  as velocities, and stage `k1` has no acceleration. So with no springs, one
  step adds only `g*dt/2` to the velocity (`FreeFallStep`).

Integer-division facts: Python's `%` with a positive divisor agrees with
Dafny's. `int(id/iDivisions)` truncates toward zero, and is modelled that way
for negative ids too. True division of the real-valued sizes is assumed.

## Model

| member | source | states |
|---|---|---|
| Vector.Vec3.Add | vec3.py:11-12 | the componentwise sum; it carries no `ensures` of its own (see "## Left out"), and `AddThenSubIsIdentity` and `AddCommutes` state its properties |
| Vector.Vec3.Sub | vec3.py:14-15 | the componentwise difference; it carries no `ensures` of its own (see "## Left out"), and `SubSelfIsZero` and `AddThenSubIsIdentity` state its properties |
| Vector.Vec3.Scale | vec3.py:17-18 | the componentwise product with a scalar; it carries no `ensures` of its own (see "## Left out"), and `ScaleByOneIsIdentity` states its identity |
| Vector.Vec3.Normalized | vec3.py:20-25 | the value `normalize` leaves in the vector: scaling it back by the norm gives the original vector |
| Vector.Vec3.Cross | vec3.py:30-31 | crossing with the zero vector gives zero; a vector crossed with itself is zero except for the z component `x*y - y*z` |
| Vector.Vec3.Norm | vec3.py:27-28 | the norm is the square root of the squared length plus 1e-6, so it is at least 1e-6 and strictly positive |
| Vector.MutVec3.constructor | vec3.py:6-9 | a fresh mutable vector holds exactly the given components |
| Vector.MutVec3.Normalize | vec3.py:20-25 | returns the norm the vector had on entry (never below 1e-6); afterwards every component is its old value divided by that norm |
| Vector.SubSelfIsZero | vec3.py:14-15 | `a - a` is the zero vector |
| Vector.AddThenSubIsIdentity | vec3.py:11-15 | adding `b` is undone by subtracting `b`: `(a + b) - b == a` |
| Vector.AddCommutes | vec3.py:11-12 | `a + b == b + a` |
| Vector.ScaleByOneIsIdentity | vec3.py:17-18 | `a * 1.0 == a` |
| Vector.CrossXYAreTextbook | vec3.py:30-31 | the x and y components of `cross` are those of the textbook cross product |
| Vector.CrossIsNotTextbook | vec3.py:30-31 | the z component is not: `(1,1,0)` crossed with itself gives `(0,0,1)`, not zero |
| Vector.NormalizedIsShorterThanOne | vec3.py:20-28 | when the square root is exact, a normalized vector is strictly shorter than 1, because of the padding |
| Simulation.SpringOffsets | cloth.py:26-47 | the table has 12 entries in order: structural (-1,0),(1,0),(0,-1),(0,1) with the horizontal or vertical rest length; each fold entry doubles the matching structural offset and rest length; the shear entries are (-1,-1),(-1,1),(1,-1),(1,1) with the diagonal length; no two offsets coincide |
| Simulation.Rk4Average | cloth.py:61 | the RK4 weights sum to one: when all four stages agree, the average is that stage |
| Simulation.Rk4AverageIncrement | cloth.py:57-61 | when `k1 = v` and `kn = v + dn`, the stored velocity is `v + (2*d2 + 2*d3 + d4)/6` |
| Simulation.Cloth.constructor | cloth.py:7-47 | `pointCount = iDivisions*jDivisions`; the mass, gravity `(0,0,-absGravity)` and spring table are as computed there; every joint has its grid position and zero velocity; no joint is locked |
| Simulation.Cloth.LayOutJoints | cloth.py:17-23 | the nested loops produce `pointCount` positions, entry `id` being the grid position of `getIJ(id)`, and `pointCount` zero velocities |
| Simulation.Cloth.GetIJ | cloth.py:89-92 | the column is in `[0, iDivisions)`; for `id >= 0`, `j*iDivisions + i == id`; an id below `pointCount` has its row below `jDivisions` |
| Simulation.Cloth.GetId | cloth.py:94-99 | returns -1 exactly when `i` or `j` is off the grid, and otherwise an index in `[0, pointCount)` |
| Simulation.Cloth.IJOfId | cloth.py:89-99 | `getIJ(getId(i, j)) == (i, j)` on every in-grid pair |
| Simulation.Cloth.IdOfIJ | cloth.py:89-99 | `getId(getIJ(id)) == id` for every joint id |
| Simulation.Cloth.LockJoint | cloth.py:80-81 | appends `(i, j)`, with neither a range check nor deduplication; the pair is then locked and every earlier pair stays locked |
| Simulation.Cloth.IsJointLocked | cloth.py:83-87 | true exactly when `(i, j)` occurs in the locked list |
| Simulation.Cloth.NeighbourAt | cloth.py:68-71 | the neighbour id a spring leads to is either -1 or a joint id |
| Simulation.Cloth.ComputeSpringForce | cloth.py:72-75 | normalizing a copy of `toNeighbor` in place and scaling it by `springK` and the stretch yields the spring force of `toNeighbor` |
| Simulation.Cloth.ComputeDeltaVelocity | cloth.py:66-78 | writes nothing; the result is the sum of spring forces over the in-grid neighbours in table order, times `1/jointMass`, plus gravity, times `dt` |
| Simulation.Cloth.JointStep | cloth.py:52-64 | one iteration writes entry `id` of both lists and nothing else, and writes nothing for a locked joint |
| Simulation.Cloth.JointStepUnlocked | cloth.py:53-64 | an unlocked joint `id` takes the RK4 result computed from the current lists, written at entry `id` of both |
| Simulation.Cloth.SweepTo | cloth.py:51-64 | every prefix of the sweep keeps both lists at `pointCount` entries |
| Simulation.Cloth.Rk4Step | cloth.py:57-62 | the four RK4 stages, each force computed from the current positions, give the new velocity `(k1+2k2+2k3+k4)/6` and the new position `position + velocity*dt` |
| Simulation.Cloth.Update | cloth.py:50-64 | after the loop, both lists are the in-place sweep over ids `0 .. pointCount-1` in ascending order |
| Simulation.Cloth.SweepKeepsLocked | cloth.py:51-54 | a locked joint keeps its position and velocity through every prefix of the sweep |
| Simulation.Cloth.LockedJointStaysPut | cloth.py:50-64 | `update` leaves the position and velocity of a locked in-grid joint unchanged |
| Simulation.Cloth.SweepReadsInPlace | cloth.py:51-64 | once ids `0 .. k-1` are processed, an earlier joint holds the value written when it was processed, and a later joint still holds its pre-call value |
| Simulation.Cloth.ForceSumReadsOnlyNeighbours | cloth.py:68-75 | two position lists that agree on the in-grid neighbours give the same force sum |
| Simulation.Cloth.DeltaVelocityReadsOnlyNeighbours | cloth.py:66-78 | `computeDeltaVelocity` depends on the stored positions only through the in-grid neighbours |
| Simulation.Cloth.ForceSumWithoutStiffness | cloth.py:68-75 | with `springK == 0` the force sum is zero |
| Simulation.Cloth.DeltaVelocityWithoutStiffness | cloth.py:75-77 | with `springK == 0` the velocity change is `gravity*dt` |
| Simulation.Cloth.FreeFallStep | cloth.py:57-62 | with `springK == 0` an unlocked joint's velocity grows by `gravity*dt/2` per step, and it moves by the new velocity times `dt` |
| Simulation.Cloth.ZeroDeltaStep | cloth.py:57-62 | if the force evaluations give no velocity change, the joint keeps its velocity and moves by `velocity*dt` |
| Simulation.Cloth.Run | cloth.py:50-64 | any number of ticks keeps both lists at `pointCount` entries |
| Simulation.Cloth.LockedJointFrozenOverRun | cloth.py:50-64 | over any number of ticks a locked in-grid joint keeps its position and velocity |
| Geometry.CappedStep | cloth_geometry.py:94 | the step is `min(elapsed, 1/20)`: at most 1/20, at most the elapsed time, and equal to one of the two |
| Geometry.CellTriangles | cloth_geometry.py:38-45 | a cell adds 12 indices |
| Geometry.CellBothWindings | cloth_geometry.py:42-45 | each of the cell's two triangles is added in both windings |
| Geometry.CellCorners | cloth_geometry.py:38-45 | a cell's indices are exactly its corners `j*n+i`, `j*n+i+1`, `(j+1)*n+i` and `(j+1)*n+i+1` |
| Geometry.CellInGrid | cloth_geometry.py:36-45 | every index of a cell names a joint of the grid |
| Geometry.RowCells | cloth_geometry.py:37-45 | the first `i` cells of a row hold `12*i` indices |
| Geometry.RowsLength | cloth_geometry.py:36-45 | `j` rows of `w` cells hold `12*j*w` indices |
| Geometry.TrianglesCount | cloth_geometry.py:36-45 | the list holds `4*(iDivisions-1)*(jDivisions-1)` triangles of 3 indices |
| Geometry.TrianglesInGrid | cloth_geometry.py:36-45 | every index in the list lies in `[0, pointCount)` |
| Geometry.TrianglesCellAt | cloth_geometry.py:36-45 | the cell at `(i, j)` sits at position `12*(j*(iDivisions-1) + i)`, in row-then-column loop order |
| Geometry.BuildTriangles | cloth_geometry.py:35-46 | the nested loops build exactly the cell-by-cell triangle list |
| Geometry.ClothGeometry.constructor | cloth_geometry.py:29-54 | one vertex per joint at its position, every normal `(0,0,1)`, the triangle list of the grid, and the clock at 0 |
| Geometry.ClothGeometry.NeighbourOrSelf | cloth_geometry.py:67-82 | the clamped neighbour id is always a joint id, so every position read is in range |
| Geometry.ClothGeometry.NeighbourOrSelfIsClamped | cloth_geometry.py:67-82 | the id is the neighbour's row-major index when the neighbour is on the grid, and the joint's own index otherwise |
| Geometry.ClothGeometry.ComputeNormal | cloth_geometry.py:67-87 | the normal is the vertical difference crossed with the horizontal difference of the clamped neighbours, normalized |
| Geometry.ClothGeometry.UpdatePositions | cloth_geometry.py:57-61 | the vertex column becomes the joint positions |
| Geometry.ClothGeometry.Normals | cloth_geometry.py:63-88 | the normal column has one entry per joint |
| Geometry.ClothGeometry.NormalsAt | cloth_geometry.py:65-88 | row `getId(i, j)` of the column holds the normal of joint `(i, j)` |
| Geometry.ClothGeometry.NormalsRow | cloth_geometry.py:65-67 | grid row `j` fills entries `j*iDivisions` to `j*iDivisions + iDivisions - 1` of the column, in column order |
| Geometry.ClothGeometry.UpdateRowNormals | cloth_geometry.py:66-88 | one pass of the inner loop writes the normals of row `j` and leaves every other entry of the normal column as it was |
| Geometry.ClothGeometry.UpdateNormals | cloth_geometry.py:63-88 | afterwards the normal column holds, for every joint, the normal of its clamped neighbours |
| Geometry.ClothGeometry.Update | cloth_geometry.py:90-99 | `oldTime` becomes the task time; the cloth takes one tick of `min(taskTime - oldTime, 1/20)`; then the vertex and normal columns are refreshed from the new positions |

## Left out

- Rendering: panda3d is not modelled. This covers the texture, node paths,
  the vertex format and buffer setup, `Geom`/`GeomNode`, and `closePrimitive`
  (cloth_geometry.py:17-27, 46-53). The vertex and normal columns are
  sequences written by index. The texture coordinates (cloth_geometry.py:33)
  are not modelled.
- The task manager: registering `update` (cloth_geometry.py:55) and
  returning `Task.cont` (line 99). The task time is a parameter of `Update`.
- main.py is not part of this model: it sets up the scene and locks joints
  through `LockJoint`.
- The module-level run at cloth.py:101-102: a side effect of importing the module.
- Floating point: scalars are exact reals. Rounding, and the 32-bit floats
  the vertex writers store, are not modelled.
- `math.sqrt` is abstract: nothing is known of it except that its results
  are non-negative.
- Physical behaviour is not modelled: energy, oscillation, or agreement with
  analytic free fall.
- `int(id/iDivisions)` goes through a float. It is modelled as exact
  integer division, which matches the code while ids fit in a float's
  53-bit mantissa.
- Vector.Vec3.Add: states no contract of its own. An `ensures` on these
  non-recursive vector functions holds at every use, and one on `Add`, `Sub`
  or `Scale` makes the proofs of the tick too expensive for the verifier.
  Their properties are separate lemmas instead.
- Vector.Vec3.Sub: states no contract of its own, for the same reason.
- Vector.Vec3.Scale: states no contract of its own, for the same reason.
- Simulation.Cloth.constructor: requires at least 2 joints per side. With 1
  joint per side the code raises `ZeroDivisionError` (cloth.py:21, 29).
  With 0 it raises at cloth.py:14. The model also excludes negative division
  counts, which the code accepts: `iDivisions=-1, jDivisions=3` builds an
  empty cloth with `pointCount = -3` (cloth.py:12-23).
- Simulation.Cloth.Update: requires `jointMass != 0`. The code raises
  `ZeroDivisionError` at cloth.py:76 once an unlocked joint is processed,
  and the model does not represent the exception.
- Simulation.Cloth.ComputeDeltaVelocity: requires `jointMass != 0` for the
  same reason.
- Geometry.ClothGeometry.Update: requires `jointMass != 0`, as `Cloth.Update` does.
- Geometry.ClothGeometry.UpdateNormals: the `GeomVertexWriter` writes rows
  one after another from row 0. The model writes row `getId(i, j)`. These
  coincide because the loops visit ids in ascending order, as
  `NormalsRow` states.
