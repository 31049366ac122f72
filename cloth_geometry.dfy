/**
 The integer side of cloth_geometry.py: the triangle index list of the
 mesh, the clamped neighbour lookup behind the per-joint normals, and the
 frame clock that feeds the cloth its time step.

 The panda3d vertex buffer is two sequences here, the vertex column and the
 normal column; texture coordinates are not kept.
 */
module Geometry {
  import opened Vector
  import opened Simulation

  /** The largest step one frame may hand to the cloth, `1.0/20.0` seconds. */
  const MaxFrameStep: real := 1.0 / 20.0

  /** `min(elapsed, 1.0/20.0)`. */
  function CappedStep(elapsed: real): (dt: real)
    ensures dt <= MaxFrameStep
    ensures dt <= elapsed
    ensures dt == elapsed || dt == MaxFrameStep
  {
    if MaxFrameStep < elapsed then MaxFrameStep else elapsed
  }

  /** The 12 indices the mesh loop adds for the cell whose top-left joint is
      `(i, j)` in a grid `n` joints wide: two triangles, each in both windings. */
  function CellTriangles(n: int, i: int, j: int): (r: seq<int>)
    ensures |r| == 12
  {
    var id0 := i + j * n;
    var id1 := id0 + 1;
    var id2 := id0 + n;
    var id3 := id2 + 1;
    [id0, id2, id1, id0, id1, id2, id1, id2, id3, id1, id3, id2]
  }

  /** Each of a cell's two triangles is emitted in both windings. */
  lemma CellBothWindings(n: int, i: int, j: int)
    ensures var r := CellTriangles(n, i, j);
      r[3..6] == [r[0], r[2], r[1]] && r[9..12] == [r[6], r[8], r[7]]
  {
  }

  /** Every entry of `s` is an index into a buffer of `count` rows. */
  ghost predicate AllIndices(s: seq<int>, count: int) {
    forall t :: 0 <= t < |s| ==> 0 <= s[t] < count
  }

  lemma AllIndicesConcat(a: seq<int>, b: seq<int>, count: int)
    requires AllIndices(a, count) && AllIndices(b, count)
    ensures AllIndices(a + b, count)
  {
    forall t | 0 <= t < |a + b|
      ensures 0 <= (a + b)[t] < count
    {
      if t < |a| {
        assert (a + b)[t] == a[t];
      } else {
        assert (a + b)[t] == b[t - |a|];
      }
    }
  }

  /** A cell's triangles use exactly its four corner joints. */
  lemma CellCorners(n: int, i: int, j: int)
    ensures var r := CellTriangles(n, i, j);
      (set k | 0 <= k < 12 :: r[k]) == {j * n + i, j * n + i + 1, (j + 1) * n + i, (j + 1) * n + i + 1}
  {
    var r := CellTriangles(n, i, j);
    var corners := {j * n + i, j * n + i + 1, (j + 1) * n + i, (j + 1) * n + i + 1};
    assert r[0] == j * n + i && r[4] == j * n + i + 1 && r[1] == (j + 1) * n + i && r[8] == (j + 1) * n + i + 1;
    assert (set k | 0 <= k < 12 :: r[k]) == corners;
  }

  /** The corners of a cell of the `n` by `m` grid are joints of the grid. */
  lemma CellInGrid(n: int, m: int, i: int, j: int)
    requires 0 <= i < n - 1 && 0 <= j < m - 1
    ensures AllIndices(CellTriangles(n, i, j), n * m)
  {
    RowMajorBound(n, m, j, i + 1);
    RowMajorBound(n, m, j + 1, i + 1);
    assert (j + 1) * n == j * n + n;
  }

  /** The indices of cells `0` to `i - 1` of row `j`, in loop order. */
  function RowCells(n: int, j: int, i: nat): (r: seq<int>)
    ensures |r| == 12 * i
  {
    if i == 0 then [] else RowCells(n, j, i - 1) + CellTriangles(n, i - 1, j)
  }

  /** The indices of rows `0` to `j - 1`, each `w` cells long, in loop order. */
  function Rows(n: int, w: nat, j: nat): seq<int>
  {
    if j == 0 then [] else Rows(n, w, j - 1) + RowCells(n, j - 1, w)
  }

  /** `j` rows of `w` cells hold `12 * (j * w)` indices. */
  lemma {:induction false} RowsLength(n: int, w: nat, j: nat)
    ensures |Rows(n, w, j)| == 12 * (j * w)
  {
    if j > 0 {
      RowsLength(n, w, j - 1);
      NextRowStart(w, j - 1);
    }
  }

  /** The whole triangle list of an `n` by `m` grid: `m - 1` rows of
      `n - 1` cells each. */
  function Triangles(n: int, m: int): seq<int>
    requires 2 <= n && 2 <= m
  {
    Rows(n, n - 1, m - 1)
  }

  /** Row `j + 1` of a grid `w` wide starts `w` entries after row `j`. */
  lemma NextRowStart(w: int, j: int)
    ensures j * w + w == (j + 1) * w
  {
  }

  /** Cell `k` of a row sits at indices `12 * k` to `12 * k + 12`. */
  lemma {:induction false} RowCellsAt(n: int, j: int, i: nat, k: nat)
    requires k < i
    ensures RowCells(n, j, i)[12 * k .. 12 * k + 12] == CellTriangles(n, k, j)
  {
    var prefix := RowCells(n, j, i - 1);
    if k < i - 1 {
      RowCellsAt(n, j, i - 1, k);
      assert RowCells(n, j, i)[12 * k .. 12 * k + 12] == prefix[12 * k .. 12 * k + 12];
    } else {
      assert RowCells(n, j, i)[12 * k .. 12 * k + 12] == RowCells(n, j, i)[|prefix| ..];
    }
  }

  /** Writing `b[k]` into row `k` of `a` extends a common prefix by one. */
  lemma PrefixExtend<T>(a: seq<T>, b: seq<T>, k: int)
    requires 0 <= k < |a| == |b| && a[..k] == b[..k]
    ensures a[k := b[k]][..k + 1] == b[..k + 1]
  {
  }

  /** A slice inside one half of a concatenation is a slice of that half. */
  lemma SliceOfConcat<T>(a: seq<T>, b: seq<T>, lo: int, hi: int)
    requires 0 <= lo <= hi <= |a| + |b|
    ensures hi <= |a| ==> (a + b)[lo .. hi] == a[lo .. hi]
    ensures |a| <= lo ==> (a + b)[lo .. hi] == b[lo - |a| .. hi - |a|]
  {
    if hi <= |a| {
      assert forall t :: 0 <= t < hi - lo ==> (a + b)[lo .. hi][t] == a[lo .. hi][t];
    }
    if |a| <= lo {
      assert forall t :: 0 <= t < hi - lo ==> (a + b)[lo .. hi][t] == b[lo - |a| .. hi - |a|][t];
    }
  }

  /** Appending row `j - 1` leaves every slice of the earlier rows in place. */
  lemma RowsPrefixSlice(n: int, w: nat, j: nat, lo: int, hi: int)
    requires 0 < j && 0 <= lo <= hi <= |Rows(n, w, j - 1)|
    ensures hi <= |Rows(n, w, j)|
    ensures Rows(n, w, j)[lo .. hi] == Rows(n, w, j - 1)[lo .. hi]
  {
    SliceOfConcat(Rows(n, w, j - 1), RowCells(n, j - 1, w), lo, hi);
  }

  /** Row `row` fills the indices from `12 * (row * w)` on. */
  lemma RowsLastSlice(n: int, w: nat, row: nat, lo: int, hi: int)
    requires 12 * (row * w) <= lo <= hi <= 12 * (row * w) + 12 * w
    ensures hi <= |Rows(n, w, row + 1)|
    ensures Rows(n, w, row + 1)[lo .. hi] == RowCells(n, row, w)[lo - 12 * (row * w) .. hi - 12 * (row * w)]
  {
    RowsLength(n, w, row);
    SliceOfConcat(Rows(n, w, row), RowCells(n, row, w), lo, hi);
  }

  /** Cell `(k, row)` of the newest row `row` sits at `start = 12 * (row * w + k)`. */
  lemma RowsAtLast(n: int, w: nat, row: nat, k: nat, start: int)
    requires k < w && start == 12 * (row * w + k)
    ensures start + 12 <= |Rows(n, w, row + 1)|
    ensures Rows(n, w, row + 1)[start .. start + 12] == CellTriangles(n, k, row)
  {
    RowCellsAt(n, row, w, k);
    RowsLastSlice(n, w, row, start, start + 12);
  }

  /** Later rows leave every slice of the first `r` rows in place. */
  lemma {:induction false} RowsStable(n: int, w: nat, j: nat, r: nat, lo: int, hi: int)
    requires r <= j && 0 <= lo <= hi <= |Rows(n, w, r)|
    ensures hi <= |Rows(n, w, j)|
    ensures Rows(n, w, j)[lo .. hi] == Rows(n, w, r)[lo .. hi]
  {
    if r < j {
      RowsStable(n, w, j - 1, r, lo, hi);
      RowsPrefixSlice(n, w, j, lo, hi);
    }
  }

  /** Cell `(k, row)` sits at indices `start = 12 * (row * w + k)` to `start + 12`. */
  lemma RowsAt(n: int, w: nat, j: nat, row: nat, k: nat, start: int)
    requires row < j && k < w && start == 12 * (row * w + k)
    ensures start + 12 <= |Rows(n, w, j)|
    ensures Rows(n, w, j)[start .. start + 12] == CellTriangles(n, k, row)
  {
    RowsAtLast(n, w, row, k, start);
    RowsStable(n, w, j, row + 1, start, start + 12);
  }

  /** Every index in the first `i` cells of row `j` names a joint of the
      `n` by `m` grid. */
  lemma {:induction false} RowCellsInGrid(n: int, m: int, j: int, i: nat)
    requires i <= n - 1 && 0 <= j < m - 1
    ensures AllIndices(RowCells(n, j, i), n * m)
  {
    if i > 0 {
      RowCellsInGrid(n, m, j, i - 1);
      CellInGrid(n, m, i - 1, j);
      AllIndicesConcat(RowCells(n, j, i - 1), CellTriangles(n, i - 1, j), n * m);
    }
  }

  /** Every index in the first `j` rows of the `n` by `m` grid names a joint. */
  lemma {:induction false} RowsInGrid(n: int, m: int, j: nat)
    requires 2 <= n && j <= m - 1
    ensures AllIndices(Rows(n, n - 1, j), n * m)
  {
    if j > 0 {
      RowsInGrid(n, m, j - 1);
      RowCellsInGrid(n, m, j - 1, n - 1);
      AllIndicesConcat(Rows(n, n - 1, j - 1), RowCells(n, j - 1, n - 1), n * m);
    }
  }

  /** The triangle list has four triangles per cell, every index names a
      joint, and the cell at `(i, j)` holds `CellTriangles(n, i, j)` at
      position `12 * (j * (n - 1) + i)`. */
  lemma TrianglesCount(n: int, m: int)
    requires 2 <= n && 2 <= m
    ensures |Triangles(n, m)| == 3 * (4 * ((n - 1) * (m - 1)))
  {
    RowsLength(n, n - 1, m - 1);
    assert (m - 1) * (n - 1) == (n - 1) * (m - 1);
  }

  /** Every index of the triangle list names a joint of the grid. */
  lemma TrianglesInGrid(n: int, m: int)
    requires 2 <= n && 2 <= m
    ensures forall t :: 0 <= t < |Triangles(n, m)| ==> 0 <= Triangles(n, m)[t] < n * m
  {
    RowsInGrid(n, m, m - 1);
    assert AllIndices(Triangles(n, m), n * m);
  }

  /** The cell at `(i, j)` holds `CellTriangles(n, i, j)` at position
      `12 * (j * (n - 1) + i)` of the triangle list. */
  lemma TrianglesCellAt(n: int, m: int, i: int, j: int)
    requires 0 <= i < n - 1 && 0 <= j < m - 1
    ensures 12 * (j * (n - 1) + i) + 12 <= |Triangles(n, m)|
    ensures Triangles(n, m)[12 * (j * (n - 1) + i) .. 12 * (j * (n - 1) + i) + 12] == CellTriangles(n, i, j)
  {
    RowsAt(n, n - 1, m - 1, j, i, 12 * (j * (n - 1) + i));
  }

  /** The triangle loop of the constructor: for every cell, row by row, the
      triangles `(id0, id2, id1)`, `(id0, id1, id2)`, `(id1, id2, id3)`, `(id1, id3, id2)`. */
  method BuildTriangles(n: int, m: int) returns (mesh: seq<int>)
    requires 2 <= n && 2 <= m
    ensures mesh == Triangles(n, m)
  {
    mesh := [];
    for j := 0 to m - 1
      invariant mesh == Rows(n, n - 1, j)
    {
      ghost var done := mesh;
      for i := 0 to n - 1
        invariant mesh == done + RowCells(n, j, i)
      {
        var id0 := i + j * n;
        var id1 := id0 + 1;
        var id2 := i + (j + 1) * n;
        var id3 := id2 + 1;
        ghost var before := RowCells(n, j, i);
        mesh := mesh + [id0, id2, id1] + [id0, id1, id2] + [id1, id2, id3] + [id1, id3, id2];
        assert RowCells(n, j, i + 1) == before + CellTriangles(n, i, j);
        assert mesh == done + (before + CellTriangles(n, i, j));
      }
    }
  }

  /** The render-side view of one cloth: its triangle list, the vertex and
      normal columns of its vertex buffer, and the time of the last frame. */
  class ClothGeometry {
    const cloth: Cloth
    const triangles: seq<int>
    var vertices: seq<Vec3>
    var normals: seq<Vec3>
    var oldTime: real

    ghost predicate Valid()
      reads this, cloth
    {
      cloth.Valid() && |normals| == cloth.pointCount && |vertices| == cloth.pointCount
        && triangles == Triangles(cloth.iDivisions, cloth.jDivisions)
    }

    /** Builds the buffers: one vertex per joint at its position, every
        normal `(0, 0, 1)`, the triangle list, and the clock at 0. */
    constructor (cloth: Cloth)
      requires cloth.Valid()
      ensures Valid() && this.cloth == cloth
      ensures vertices == cloth.positions
      ensures forall id :: 0 <= id < cloth.pointCount ==> normals[id] == Vec3(0.0, 0.0, 1.0)
      ensures oldTime == 0.0
    {
      this.cloth := cloth;
      var mesh := BuildTriangles(cloth.iDivisions, cloth.jDivisions);
      triangles := mesh;
      new;
      vertices, normals := [], [];
      for id := 0 to cloth.pointCount
        invariant |vertices| == id && |normals| == id
        invariant vertices == cloth.positions[..id]
        invariant forall k :: 0 <= k < id ==> normals[k] == Vec3(0.0, 0.0, 1.0)
      {
        vertices := vertices + [cloth.positions[id]];
        normals := normals + [Vec3(0.0, 0.0, 1.0)];
      }
      oldTime := 0.0;
    }

    /** The id whose position `updateNormals` reads for the neighbour of the
        in-grid joint `(i, j)` at offset `(di, dj)`. */
    function NeighbourOrSelf(i: int, j: int, di: int, dj: int): (r: int)
      requires cloth.Shape() && 0 <= i < cloth.iDivisions && 0 <= j < cloth.jDivisions
      ensures 0 <= r < cloth.pointCount
    {
      var id := cloth.GetId(i + di, j + dj);
      if id != -1 then id else cloth.GetId(i, j)
    }

    /** The lookup is clamped: it yields the neighbour's id when the
        neighbour is on the grid, and the joint's own id when it is not. */
    lemma NeighbourOrSelfIsClamped(i: int, j: int, di: int, dj: int)
      requires cloth.Shape() && 0 <= i < cloth.iDivisions && 0 <= j < cloth.jDivisions
      ensures 0 <= i + di < cloth.iDivisions && 0 <= j + dj < cloth.jDivisions ==>
        NeighbourOrSelf(i, j, di, dj) == (j + dj) * cloth.iDivisions + (i + di)
      ensures !(0 <= i + di < cloth.iDivisions && 0 <= j + dj < cloth.jDivisions) ==>
        NeighbourOrSelf(i, j, di, dj) == j * cloth.iDivisions + i
    {
    }

    /** The normal `updateNormals` stores for joint `(i, j)` given positions `ps`:
        the difference of the vertical neighbours crossed with the difference
        of the horizontal ones, normalized. */
    ghost function NormalAt(ps: seq<Vec3>, i: int, j: int): Vec3
      requires cloth.Shape() && |ps| == cloth.pointCount
      requires 0 <= i < cloth.iDivisions && 0 <= j < cloth.jDivisions
    {
      var hDiff := ps[NeighbourOrSelf(i, j, 1, 0)].Sub(ps[NeighbourOrSelf(i, j, -1, 0)]);
      var vDiff := ps[NeighbourOrSelf(i, j, 0, 1)].Sub(ps[NeighbourOrSelf(i, j, 0, -1)]);
      vDiff.Cross(hDiff).Normalized(cloth.sqrt)
    }

    /** The body of the `updateNormals` loop for joint `(i, j)`. */
    method ComputeNormal(i: int, j: int) returns (normal: Vec3)
      requires cloth.Valid() && 0 <= i < cloth.iDivisions && 0 <= j < cloth.jDivisions
      ensures normal == NormalAt(cloth.positions, i, j)
    {
      var id := cloth.GetId(i, j);
      var hMinusId := cloth.GetId(i - 1, j);
      hMinusId := if hMinusId != -1 then hMinusId else id;
      assert hMinusId == NeighbourOrSelf(i, j, -1, 0);
      var hMinusPos := cloth.positions[hMinusId];

      var hPlusId := cloth.GetId(i + 1, j);
      hPlusId := if hPlusId != -1 then hPlusId else id;
      assert hPlusId == NeighbourOrSelf(i, j, 1, 0);
      var hPlusPos := cloth.positions[hPlusId];

      var vMinusId := cloth.GetId(i, j - 1);
      vMinusId := if vMinusId != -1 then vMinusId else id;
      assert vMinusId == NeighbourOrSelf(i, j, 0, -1);
      var vMinusPos := cloth.positions[vMinusId];

      var vPlusId := cloth.GetId(i, j + 1);
      vPlusId := if vPlusId != -1 then vPlusId else id;
      assert vPlusId == NeighbourOrSelf(i, j, 0, 1);
      var vPlusPos := cloth.positions[vPlusId];

      var hDiff := hPlusPos.Sub(hMinusPos);
      var vDiff := vPlusPos.Sub(vMinusPos);
      var buffer := new MutVec3(vDiff.Cross(hDiff));
      var norm := buffer.Normalize(cloth.sqrt);
      normal := buffer.Value();
    }

    /** `updatePositions()`: copies every joint position into the vertex column. */
    method UpdatePositions()
      requires Valid()
      modifies this`vertices
      ensures Valid()
      ensures vertices == cloth.positions
    {
      for id := 0 to cloth.pointCount
        invariant |vertices| == cloth.pointCount
        invariant vertices[..id] == cloth.positions[..id]
      {
        vertices := vertices[id := cloth.positions[id]];
      }
    }

    /** The normal column `updateNormals` writes for positions `ps`: row `id`
        holds the normal of the joint whose coordinates are `getIJ(id)`. */
    ghost function Normals(ps: seq<Vec3>): (r: seq<Vec3>)
      requires cloth.Shape() && |ps| == cloth.pointCount
      ensures |r| == cloth.pointCount
    {
      seq(cloth.pointCount, id requires 0 <= id < cloth.pointCount =>
        NormalAt(ps, cloth.GetIJ(id).0, cloth.GetIJ(id).1))
    }

    /** Row `getId(i, j)` of the normal column holds the normal of joint `(i, j)`. */
    lemma NormalsAt(ps: seq<Vec3>, i: int, j: int)
      requires cloth.Shape() && |ps| == cloth.pointCount
      requires 0 <= i < cloth.iDivisions && 0 <= j < cloth.jDivisions
      ensures Normals(ps)[cloth.GetId(i, j)] == NormalAt(ps, i, j)
    {
      cloth.IJOfId(i, j);
    }

    /** Row `j` of the grid fills entries `start` to `start + iDivisions` of
        the normal column, where `start = j * iDivisions`. */
    lemma NormalsRow(ps: seq<Vec3>, j: int, start: int)
      requires cloth.Shape() && |ps| == cloth.pointCount
      requires 0 <= j < cloth.jDivisions && start == j * cloth.iDivisions
      ensures 0 <= start && start + cloth.iDivisions <= cloth.pointCount
      ensures forall i :: 0 <= i < cloth.iDivisions ==> Normals(ps)[start + i] == NormalAt(ps, i, j)
    {
      RowMajorBound(cloth.iDivisions, cloth.jDivisions, j, cloth.iDivisions - 1);
      forall i | 0 <= i < cloth.iDivisions
        ensures Normals(ps)[start + i] == NormalAt(ps, i, j)
      {
        RowMajorBound(cloth.iDivisions, cloth.jDivisions, j, i);
        NormalsAt(ps, i, j);
      }
    }

    /** `updateNormals()`: writes the normal column row by row, joint `(i, j)`
        into row `j * iDivisions + i`, which is its id. */
    method UpdateNormals()
      requires Valid()
      modifies this`normals
      ensures Valid()
      ensures normals == Normals(cloth.positions)
    {
      ghost var target := Normals(cloth.positions);
      var row := 0;
      for j := 0 to cloth.jDivisions
        invariant Valid() && row == j * cloth.iDivisions
        invariant row <= cloth.pointCount
        invariant normals[..row] == target[..row]
      {
        NormalsRow(cloth.positions, j, row);
        UpdateRowNormals(j, row, target);
        NextRowStart(cloth.iDivisions, j);
        row := row + cloth.iDivisions;
      }
      assert normals == normals[..row] && target == target[..row];
    }

    /** The inner loop of `updateNormals` for row `j`, whose first entry in
        the normal column is `start`: every joint of that row gets its
        normal, as `target` lists them, and every other row keeps its own. */
    method UpdateRowNormals(j: int, start: int, ghost target: seq<Vec3>)
      requires cloth.Valid() && |normals| == cloth.pointCount && 0 <= j < cloth.jDivisions
      requires |target| == cloth.pointCount && 0 <= start && start + cloth.iDivisions <= cloth.pointCount
      requires forall i :: 0 <= i < cloth.iDivisions ==> target[start + i] == NormalAt(cloth.positions, i, j)
      requires normals[..start] == target[..start]
      modifies this`normals
      ensures |normals| == cloth.pointCount
      ensures normals[..start + cloth.iDivisions] == target[..start + cloth.iDivisions]
      ensures normals[start + cloth.iDivisions..] == old(normals)[start + cloth.iDivisions..]
    {
      var row := start;
      for i := 0 to cloth.iDivisions
        invariant |normals| == cloth.pointCount && row == start + i
        invariant normals[..row] == target[..row]
        invariant normals[row..] == old(normals)[row..]
      {
        var normal := ComputeNormal(i, j);
        PrefixExtend(normals, target, row);
        normals := normals[row := normal];
        row := row + 1;
      }
    }

    /** `update(task)`: the time since the last frame, capped at `1/20`, is
        one tick of the cloth; the clock moves to `taskTime`, and both
        columns are refreshed from the new positions. */
    method Update(taskTime: real)
      requires Valid() && cloth.jointMass != 0.0
      modifies this, cloth`positions, cloth`velocities
      ensures Valid()
      ensures oldTime == taskTime
      ensures (cloth.positions, cloth.velocities)
           == cloth.SweepTo(old(cloth.positions), old(cloth.velocities),
                            CappedStep(taskTime - old(oldTime)), cloth.pointCount)
      ensures vertices == cloth.positions
      ensures normals == Normals(cloth.positions)
    {
      var diffTime := taskTime - oldTime;
      oldTime := taskTime;
      diffTime := CappedStep(diffTime);
      cloth.Update(diffTime);
      UpdatePositions();
      UpdateNormals();
    }
  }
}
