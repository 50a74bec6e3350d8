/** The triangle list of a chunk's physics mesh. Every cell is a grid of
    8 by 8 patches; a patch has four outer corners and a centre vertex and
    is split into four triangles around the centre. A triangle is left out
    when its patch's centre vertex is marked in the cell's 64-bit hole
    mask. The grid constants of `Terrain` are the fields of a `Layout`;
    `Standard` holds the values the vertex positions assume (17 vertices per
    row pair: 9 outer, then 8 centres). */
module MapTriangles {
  import opened Bytes
  import opened Arith

  /** `CELL_GRID_ROW_SIZE`, `CELL_OUTER_GRID_STRIDE`, `CELL_TOTAL_GRID_SIZE`
      and `CELL_NUM_TRIANGLES`. */
  datatype Layout = Layout(rowSize: nat, outerStride: nat, cellGridSize: nat, cellTriangles: nat)

  /** The grid of a cell: 9 by 9 outer vertices and 8 by 8 centres, stored
      row by row as 9 outer then 8 centre vertices; 64 patches of four
      triangles. */
  const Standard := Layout(17, 9, 145, 256)

  /** The `IsHoleVertex` lambda: a vertex in column 9 or above of its
      17-wide row block is a centre; the centre in block row `r` and column
      `9 + c` is a hole when bit `r * 8 + c` of the mask is set. A shift by
      64 or more would be undefined in C++; here it reads as a clear bit. */
  function IsHoleVertex(rowSize: nat, vertexId: nat, holes: u64): (hole: bool)
    requires rowSize > 0
    ensures vertexId % rowSize < 9 ==> !hole
    ensures holes == 0 ==> !hole
  {
    var blockRow := vertexId / rowSize;
    var blockVertexId := vertexId % rowSize;
    blockVertexId >= 9 && Bits(holes, blockRow * 8 + (blockVertexId - 9), 1) == 1
  }

  /** The five vertices of a patch, local to its cell. */
  datatype Corners = Corners(topLeft: nat, topRight: nat, bottomLeft: nat, bottomRight: nat, centre: nat)

  /** `patchVertexIDs` of patch `patchId`: the patch sits in row
      `patchId / 8` and column `patchId % 8`. */
  function PatchCorners(l: Layout, patchId: nat): Corners
  {
    var topLeft := patchId % 8 + (patchId / 8) * l.rowSize;
    Corners(topLeft, topLeft + 1, topLeft + l.rowSize, topLeft + l.rowSize + 1, topLeft + l.outerStride)
  }

  /** A triangle's vertex indices in the order they are emitted. */
  datatype Triangle = Triangle(a: nat, b: nat, c: nat)

  /** Triangle `t` of cell `cellId`: triangle `t % 4` of patch `t / 4`,
      going top, left, bottom, right, each wound from an outer corner to
      the next and ending at the centre. */
  function PatchTriangle(l: Layout, cellId: nat, t: nat): Triangle
  {
    var p := PatchCorners(l, t / 4);
    var base := cellId * l.cellGridSize;
    match t % 4
    case 0 => Triangle(base + p.topLeft, base + p.topRight, base + p.centre)
    case 1 => Triangle(base + p.bottomLeft, base + p.topLeft, base + p.centre)
    case 2 => Triangle(base + p.bottomRight, base + p.bottomLeft, base + p.centre)
    case _ => Triangle(base + p.topRight, base + p.bottomRight, base + p.centre)
  }

  /** Triangle `t` of a cell is emitted unless its patch's centre is a
      hole. */
  predicate Emitted(l: Layout, hole: u64, t: nat)
    requires l.rowSize > 0
  {
    !IsHoleVertex(l.rowSize, PatchCorners(l, t / 4).centre, hole)
  }

  /** `make(t)` for every `t` below `n` that `keep` accepts, in order. */
  function Filtered(n: nat, keep: nat -> bool, make: nat -> Triangle): (tris: seq<Triangle>)
    ensures |tris| <= n
  {
    if n == 0 then []
    else Filtered(n - 1, keep, make) + (if keep(n - 1) then [make(n - 1)] else [])
  }

  /** The triangles of cell `cellId` among the first `n`, in order. */
  function CellTriangles(l: Layout, cellId: nat, hole: u64, n: nat): seq<Triangle>
    requires l.rowSize > 0
  {
    Filtered(n, (t: nat) => Emitted(l, hole, t), (t: nat) => PatchTriangle(l, cellId, t))
  }

  /** The triangles of the first `m` cells, cell by cell. */
  function ChunkTriangles(l: Layout, holes: seq<u64>, m: nat): seq<Triangle>
    requires l.rowSize > 0 && m <= |holes|
  {
    if m == 0 then []
    else ChunkTriangles(l, holes, m - 1) + CellTriangles(l, m - 1, holes[m - 1], l.cellTriangles)
  }

  /** The triangle pass over the cells of a chunk: `patchVertexIDs` is
      filled for each triangle's patch, and the triangle's two outer
      corners are picked from it through the offsets (x, y) = (bottom or
      right, top or right). */
  method BuildTriangleList(l: Layout, holes: seq<u64>) returns (triangleList: seq<Triangle>)
    requires l.rowSize > 0
    ensures triangleList == ChunkTriangles(l, holes, |holes|)
  {
    triangleList := [];
    var patchVertexIDs := new nat[5];
    var cellId := 0;
    while cellId < |holes|
      invariant cellId <= |holes|
      invariant triangleList == ChunkTriangles(l, holes, cellId)
    {
      triangleList := EmitCellTriangles(l, cellId, holes[cellId], patchVertexIDs, triangleList);
      cellId := cellId + 1;
    }
  }

  /** The triangle loop of one cell: the triangles whose patch centre is
      not a hole are pushed onto `triangleList`. */
  method EmitCellTriangles(l: Layout, cellId: nat, holeData: u64, patchVertexIDs: array<nat>,
                           triangleList: seq<Triangle>) returns (extended: seq<Triangle>)
    requires l.rowSize > 0 && patchVertexIDs.Length == 5
    modifies patchVertexIDs
    ensures extended == triangleList + CellTriangles(l, cellId, holeData, l.cellTriangles)
  {
    extended := triangleList;
    var i := 0;
    while i < l.cellTriangles
      invariant i <= l.cellTriangles
      invariant extended == triangleList + CellTriangles(l, cellId, holeData, i)
    {
      var patchId := i / 4;
      FillPatchVertexIds(l, patchId, patchVertexIDs);
      var triangleWithinPatch := i % 4;
      var x := if triangleWithinPatch > 1 then 1 else 0;
      var y := if triangleWithinPatch == 0 || triangleWithinPatch == 3 then 1 else 0;
      var vertexId1 := cellId * l.cellGridSize + patchVertexIDs[4];
      var vertexId2 := cellId * l.cellGridSize + patchVertexIDs[x * 2 + y];
      var vertexId3 := cellId * l.cellGridSize + patchVertexIDs[(1 - y) * 2 + x];
      var localCenterVertexId := patchVertexIDs[4];
      PickedCorners(l, cellId, i, patchVertexIDs[..], x, y);
      assert Emitted(l, holeData, i) == !IsHoleVertex(l.rowSize, localCenterVertexId, holeData);
      CellTrianglesStep(l, cellId, holeData, i);
      if IsHoleVertex(l.rowSize, localCenterVertexId, holeData) {
        i := i + 1;
        continue;
      }
      extended := extended + [Triangle(vertexId3, vertexId2, vertexId1)];
      assert extended == triangleList + (CellTriangles(l, cellId, holeData, i) + [PatchTriangle(l, cellId, i)]);
      i := i + 1;
    }
  }

  /** One more triangle index adds that triangle when it is emitted. */
  lemma CellTrianglesStep(l: Layout, cellId: nat, hole: u64, i: nat)
    requires l.rowSize > 0
    ensures CellTriangles(l, cellId, hole, i + 1) ==
      CellTriangles(l, cellId, hole, i) + if Emitted(l, hole, i) then [PatchTriangle(l, cellId, i)] else []
  {
  }

  /** Fills `patchVertexIDs` for patch `patchId`: top left, top right,
      bottom left, bottom right, centre. */
  method FillPatchVertexIds(l: Layout, patchId: nat, patchVertexIDs: array<nat>)
    requires patchVertexIDs.Length == 5
    modifies patchVertexIDs
    ensures var p := PatchCorners(l, patchId);
      patchVertexIDs[..] == [p.topLeft, p.topRight, p.bottomLeft, p.bottomRight, p.centre]
  {
    var patchRow := patchId / 8;
    var patchColumn := patchId % 8;
    patchVertexIDs[0] := patchColumn + patchRow * l.rowSize;
    patchVertexIDs[1] := patchVertexIDs[0] + 1;
    patchVertexIDs[2] := patchVertexIDs[0] + l.rowSize;
    patchVertexIDs[3] := patchVertexIDs[2] + 1;
    patchVertexIDs[4] := patchVertexIDs[0] + l.outerStride;
  }

  /** The offsets pick the triangle's corners: with `ids` the patch's
      corners in `patchVertexIDs` order, (x, y) select the second vertex at
      `x * 2 + y` and the first at `(1 - y) * 2 + x`. */
  lemma PickedCorners(l: Layout, cellId: nat, t: nat, ids: seq<nat>, x: nat, y: nat)
    requires var p := PatchCorners(l, t / 4);
      ids == [p.topLeft, p.topRight, p.bottomLeft, p.bottomRight, p.centre]
    requires x == (if t % 4 > 1 then 1 else 0) && y == (if t % 4 == 0 || t % 4 == 3 then 1 else 0)
    ensures var base := cellId * l.cellGridSize;
      PatchTriangle(l, cellId, t) == Triangle(base + ids[(1 - y) * 2 + x], base + ids[x * 2 + y], base + ids[4])
  {
  }

  /** An element of a filtered list is made from an index `keep` accepts,
      and every such index contributes. */
  lemma {:induction false} FilteredMembers(n: nat, keep: nat -> bool, make: nat -> Triangle, tri: Triangle)
    ensures tri in Filtered(n, keep, make) <==> exists t | 0 <= t < n && keep(t) :: make(t) == tri
  {
    if n > 0 {
      FilteredMembers(n - 1, keep, make, tri);
      if tri in Filtered(n, keep, make) && tri !in Filtered(n - 1, keep, make) {
        assert keep(n - 1) && make(n - 1) == tri;
      }
    }
  }

  /** When `keep` accepts every index, nothing is filtered out. */
  lemma {:induction false} FilteredAll(n: nat, keep: nat -> bool, make: nat -> Triangle)
    requires forall t | 0 <= t < n :: keep(t)
    ensures |Filtered(n, keep, make)| == n
  {
    if n > 0 {
      FilteredAll(n - 1, keep, make);
    }
  }

  /** A triangle is in a cell's list exactly when it is an emitted triangle
      of that cell. */
  lemma CellTrianglesMembers(l: Layout, cellId: nat, hole: u64, n: nat, tri: Triangle)
    requires l.rowSize > 0
    ensures tri in CellTriangles(l, cellId, hole, n) <==>
      exists t | 0 <= t < n && Emitted(l, hole, t) :: PatchTriangle(l, cellId, t) == tri
  {
    var keep := (t: nat) => Emitted(l, hole, t);
    var make := (t: nat) => PatchTriangle(l, cellId, t);
    assert CellTriangles(l, cellId, hole, n) == Filtered(n, keep, make);
    FilteredMembers(n, keep, make, tri);
    if tri in CellTriangles(l, cellId, hole, n) {
      var t :| 0 <= t < n && keep(t) && make(t) == tri;
      assert Emitted(l, hole, t) && PatchTriangle(l, cellId, t) == tri;
    }
    if exists t | 0 <= t < n && Emitted(l, hole, t) :: PatchTriangle(l, cellId, t) == tri {
      var t :| 0 <= t < n && Emitted(l, hole, t) && PatchTriangle(l, cellId, t) == tri;
      assert keep(t) && make(t) == tri;
    }
  }

  /** A triangle is in the chunk's list exactly when it is in the list of
      one of its cells. */
  lemma {:induction false} ChunkCellMembers(l: Layout, holes: seq<u64>, m: nat, tri: Triangle)
    requires l.rowSize > 0 && m <= |holes|
    ensures tri in ChunkTriangles(l, holes, m) <==>
      exists cellId | 0 <= cellId < m :: tri in CellTriangles(l, cellId, holes[cellId], l.cellTriangles)
  {
    if m > 0 {
      ChunkCellMembers(l, holes, m - 1, tri);
    }
  }

  /** A triangle is in the chunk's list exactly when it is an emitted
      triangle of one of its cells. */
  lemma ChunkTrianglesMembers(l: Layout, holes: seq<u64>, tri: Triangle)
    requires l.rowSize > 0
    ensures tri in ChunkTriangles(l, holes, |holes|) <==>
      exists cellId, t | 0 <= cellId < |holes| && 0 <= t < l.cellTriangles && Emitted(l, holes[cellId], t) ::
        PatchTriangle(l, cellId, t) == tri
  {
    ChunkCellMembers(l, holes, |holes|, tri);
    if tri in ChunkTriangles(l, holes, |holes|) {
      var cellId :| 0 <= cellId < |holes| && tri in CellTriangles(l, cellId, holes[cellId], l.cellTriangles);
      CellTrianglesMembers(l, cellId, holes[cellId], l.cellTriangles, tri);
    }
    if exists cellId, t | 0 <= cellId < |holes| && 0 <= t < l.cellTriangles && Emitted(l, holes[cellId], t) ::
         PatchTriangle(l, cellId, t) == tri {
      var cellId, t :| 0 <= cellId < |holes| && 0 <= t < l.cellTriangles && Emitted(l, holes[cellId], t) &&
        PatchTriangle(l, cellId, t) == tri;
      CellTrianglesMembers(l, cellId, holes[cellId], l.cellTriangles, tri);
    }
  }

  /** A chunk has at most `cellTriangles` triangles per cell. */
  lemma {:induction false} ChunkTrianglesCount(l: Layout, holes: seq<u64>, m: nat)
    requires l.rowSize > 0 && m <= |holes|
    ensures |ChunkTriangles(l, holes, m)| <= m * l.cellTriangles
  {
    if m > 0 {
      ChunkTrianglesCount(l, holes, m - 1);
      var cell := CellTriangles(l, m - 1, holes[m - 1], l.cellTriangles);
      assert |cell| <= l.cellTriangles;
      assert ChunkTriangles(l, holes, m) == ChunkTriangles(l, holes, m - 1) + cell;
      assert (m - 1) * l.cellTriangles + l.cellTriangles == m * l.cellTriangles;
    }
  }

  /** Without holes every cell gives all its triangles. */
  lemma {:induction false} NoHolesAllTriangles(l: Layout, holes: seq<u64>, m: nat)
    requires l.rowSize > 0 && m <= |holes|
    requires forall i | 0 <= i < |holes| :: holes[i] == 0
    ensures |ChunkTriangles(l, holes, m)| == m * l.cellTriangles
  {
    if m > 0 {
      NoHolesAllTriangles(l, holes, m - 1);
      var keep := (t: nat) => Emitted(l, holes[m - 1], t);
      var cell := CellTriangles(l, m - 1, holes[m - 1], l.cellTriangles);
      assert cell == Filtered(l.cellTriangles, keep, (t: nat) => PatchTriangle(l, m - 1, t));
      FilteredAll(l.cellTriangles, keep, (t: nat) => PatchTriangle(l, m - 1, t));
      assert ChunkTriangles(l, holes, m) == ChunkTriangles(l, holes, m - 1) + cell;
      assert (m - 1) * l.cellTriangles + l.cellTriangles == m * l.cellTriangles;
    }
  }

  /** Outer vertex (row, column) and centre (row, column) of the standard
      cell grid. */
  function OuterVertex(row: nat, column: nat): nat
  {
    row * 17 + column
  }

  function CentreVertex(row: nat, column: nat): nat
  {
    row * 17 + 9 + column
  }

  /** In the standard grid the corners of patch (r, c) are the outer
      vertices (r, c), (r, c + 1), (r + 1, c), (r + 1, c + 1) and its centre
      is centre (r, c); all lie inside the cell's 145 vertices, outer
      vertices in columns below 9 of their row block and centres at 9 and
      above. */
  lemma StandardCorners(patchId: nat)
    requires patchId < 64
    ensures var r, c := patchId / 8, patchId % 8;
      var p := PatchCorners(Standard, patchId);
      p.topLeft == OuterVertex(r, c) && p.topRight == OuterVertex(r, c + 1) &&
      p.bottomLeft == OuterVertex(r + 1, c) && p.bottomRight == OuterVertex(r + 1, c + 1) &&
      p.centre == CentreVertex(r, c) &&
      p.bottomRight < Standard.cellGridSize && p.centre < Standard.cellGridSize
    ensures var p := PatchCorners(Standard, patchId);
      p.topLeft % 17 < 9 && p.topRight % 17 < 9 && p.bottomLeft % 17 < 9 && p.bottomRight % 17 < 9 &&
      p.centre % 17 >= 9
  {
    var r, c := patchId / 8, patchId % 8;
    assert r < 8;
    RowMajor(17, r, c);
    RowMajor(17, r, c + 1);
    RowMajor(17, r + 1, c);
    RowMajor(17, r + 1, c + 1);
    RowMajor(17, r, 9 + c);
  }

  /** In the standard grid the centre of patch (r, c) is a hole exactly
      when bit `r * 8 + c` of the mask is set. */
  lemma HoleOfPatchCentre(patchId: nat, holes: u64)
    requires patchId < 64
    ensures IsHoleVertex(17, PatchCorners(Standard, patchId).centre, holes) <==>
      Bits(holes, patchId, 1) == 1
  {
    var r, c := patchId / 8, patchId % 8;
    var v := PatchCorners(Standard, patchId).centre;
    assert v == r * 17 + (9 + c);
    RowMajor(17, r, 9 + c);
    assert v / 17 == r && v % 17 == 9 + c;
    assert r * 8 + (v % 17 - 9) == patchId;
  }

  /** With the standard grid, the vertices of a cell's triangles are that
      cell's own: between `cellId * 145` and the next cell's first vertex. */
  lemma StandardTriangleInCell(cellId: nat, t: nat)
    requires t < 256
    ensures var tri, base := PatchTriangle(Standard, cellId, t), cellId * 145;
      base <= tri.a < base + 145 && base <= tri.b < base + 145 && base <= tri.c < base + 145
  {
    StandardCorners(t / 4);
  }

  /** The cell and triangle index a triangle of a standard chunk's list
      comes from. */
  lemma StandardCellOf(holes: seq<u64>, tri: Triangle) returns (cellId: nat, t: nat)
    requires tri in ChunkTriangles(Standard, holes, |holes|)
    ensures cellId < |holes| && t < 256 && Emitted(Standard, holes[cellId], t)
    ensures PatchTriangle(Standard, cellId, t) == tri
  {
    ChunkTrianglesMembers(Standard, holes, tri);
    cellId, t :| 0 <= cellId < |holes| && 0 <= t < 256 && Emitted(Standard, holes[cellId], t) &&
      PatchTriangle(Standard, cellId, t) == tri;
  }

  /** With the standard grid, every index of a chunk's triangle list lies
      below the chunk's vertex count. */
  lemma StandardTriangleBounds(holes: seq<u64>, tri: Triangle)
    requires tri in ChunkTriangles(Standard, holes, |holes|)
    ensures tri.a < |holes| * 145 && tri.b < |holes| * 145 && tri.c < |holes| * 145
  {
    var cellId, t := StandardCellOf(holes, tri);
    StandardTriangleInCell(cellId, t);
    MulLe(cellId + 1, 145, |holes|, 145);
    assert (cellId + 1) * 145 == cellId * 145 + 145;
  }

  /** With the standard grid, every triangle of a chunk's list is a
      triangle of a patch whose hole bit is clear. */
  lemma StandardTrianglesAvoidHoles(holes: seq<u64>, tri: Triangle)
    requires tri in ChunkTriangles(Standard, holes, |holes|)
    ensures exists cellId, t | 0 <= cellId < |holes| && 0 <= t < 256 ::
      PatchTriangle(Standard, cellId, t) == tri && Bits(holes[cellId], t / 4, 1) == 0
  {
    var cellId, t := StandardCellOf(holes, tri);
    HoleOfPatchCentre(t / 4, holes[cellId]);
    assert Bits(holes[cellId], t / 4, 1) == 0;
  }
}
