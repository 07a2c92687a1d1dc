/**
 * grid_to_mesh: walk a 2-D grid in row-major order and, for every cell that is
 * not a hole, emit one quad over a deduplicated list of lattice corners; then
 * rescale the corners by the cell size.
 */
module MeshBuilder {
  import opened Wrappers
  import opened Lattice
  import opened Grid

  /** The hole test used when the caller passes none: a cell is a hole when its value is 0. */
  predicate DefaultHole(value: real)
  {
    value == 0.0
  }

  /** The hole test grid_to_mesh applies for its `hole_func` argument. */
  function HoleTest(holeFunc: Option<real -> bool>): real -> bool
  {
    match holeFunc
    case None => DefaultHole
    case Some(f) => f
  }

  /**
   * The vertex dictionary maps each buffered lattice point to its position in
   * the buffer: vertexDict[v] == i exactly when vertices[i] == v.
   */
  ghost predicate Indexed(vertexDict: map<Vertex, nat>, vertices: seq<Vertex>)
  {
    && (forall v {:trigger v in vertexDict} :: v in vertexDict ==> vertexDict[v] < |vertices| && vertices[vertexDict[v]] == v)
    && (forall i {:trigger vertices[i] in vertexDict} :: 0 <= i < |vertices| ==> vertices[i] in vertexDict && vertexDict[vertices[i]] == i)
  }

  /**
   * vertex_id: the id of lattice point `v`, appending it to the buffer first
   * when the dictionary has not seen it.
   */
  method VertexId(vertexDict: map<Vertex, nat>, vertices: seq<Vertex>, v: Vertex)
    returns (vertexDict': map<Vertex, nat>, vertices': seq<Vertex>, vid: nat)
    requires Indexed(vertexDict, vertices)
    ensures Indexed(vertexDict', vertices')
    ensures vertices' == Add(vertices, v)
    ensures vid < |vertices'| && vertices'[vid] == v
  {
    if v in vertexDict {
      vid := vertexDict[v];
      vertexDict', vertices' := vertexDict, vertices;
    } else {
      assert v !in vertices;
      vertices' := vertices + [v];
      vid := |vertices'| - 1;
      vertexDict' := vertexDict[v := vid];
    }
  }

  /** One lattice point in real coordinates: (x * cell_width, y * cell_height). */
  function ScalePoint(v: Vertex, cellWidth: real, cellHeight: real): (real, real)
  {
    (v.0 as real * cellWidth, v.1 as real * cellHeight)
  }

  /** The lattice points rescaled to real coordinates by the cell size, in order. */
  function Scale(vs: seq<Vertex>, cellWidth: real, cellHeight: real): (r: seq<(real, real)>)
    ensures |r| == |vs|
    ensures forall i :: 0 <= i < |vs| ==> r[i] == ScalePoint(vs[i], cellWidth, cellHeight)
  {
    if vs == [] then []
    else [ScalePoint(vs[0], cellWidth, cellHeight)] + Scale(vs[1..], cellWidth, cellHeight)
  }

  lemma ScaleCancel(a: int, b: int, c: real)
    requires c != 0.0
    ensures a as real * c == b as real * c ==> a == b
  {
  }

  /** With non-zero cell sizes, rescaling keeps distinct lattice points distinct. */
  lemma ScaleKeepsDistinct(vs: seq<Vertex>, cellWidth: real, cellHeight: real)
    requires cellWidth != 0.0 && cellHeight != 0.0 && NoDup(vs)
    ensures NoDup(Scale(vs, cellWidth, cellHeight))
  {
    var r := Scale(vs, cellWidth, cellHeight);
    forall i, j | 0 <= i < j < |r|
      ensures r[i] != r[j]
    {
      ScaleCancel(vs[i].0, vs[j].0, cellWidth);
      ScaleCancel(vs[i].1, vs[j].1, cellHeight);
      assert vs[i] != vs[j];
    }
  }

  lemma PrefixAt<T>(a: seq<T>, b: seq<T>, i: nat)
    requires a <= b && i < |a|
    ensures b[i] == a[i]
  {
  }

  /**
   * The lattice state after visiting the solid cells `visited`: the buffer is
   * their first-seen corners, the dictionary indexes it, and face k is the
   * quad of the k-th visited cell.
   */
  ghost predicate Visited(vertexDict: map<Vertex, nat>, vertices: seq<Vertex>, faces: seq<Face>, visited: seq<Cell>)
  {
    && Indexed(vertexDict, vertices)
    && vertices == LatticeVertices(visited)
    && |faces| == |visited|
    && forall k :: 0 <= k < |faces| ==> FaceFits(vertices, faces[k], visited[k])
  }

  /**
   * The body of the cell loop for a solid cell (x, y): look up or allocate
   * its four corners and append its quad (bottom_left, bottom_right,
   * top_right, top_left).
   */
  method EmitQuad(vertexDict: map<Vertex, nat>, vertices: seq<Vertex>, faces: seq<Face>,
                  ghost visited: seq<Cell>, x: nat, y: nat)
    returns (vertexDict': map<Vertex, nat>, vertices': seq<Vertex>, faces': seq<Face>)
    requires Visited(vertexDict, vertices, faces, visited)
    ensures Visited(vertexDict', vertices', faces', visited + [(x, y)])
    ensures faces' == faces + [faces'[|faces|]]
  {
    var c: Cell := (x, y);
    var d0, l0 := vertexDict, vertices;
    var d1, l1, topLeft := VertexId(d0, l0, (x, y + 1));
    var d2, l2, topRight := VertexId(d1, l1, (x + 1, y + 1));
    var d3, l3, bottomLeft := VertexId(d2, l2, (x, y));
    var d4, l4, bottomRight := VertexId(d3, l3, (x + 1, y));
    var quad: Face := (bottomLeft, bottomRight, topRight, topLeft);
    faces' := faces + [quad];
    vertexDict', vertices' := d4, l4;
    assert l0 <= l1 <= l2 <= l3 <= l4;
    PrefixAt(l1, l4, topLeft);
    PrefixAt(l2, l4, topRight);
    PrefixAt(l3, l4, bottomLeft);
    assert FaceFits(l4, quad, c);
    forall k | 0 <= k < |faces|
      ensures FaceFits(l4, faces[k], visited[k])
    {
      FaceFitsGrow(l0, l4, faces[k], visited[k]);
    }
    assert forall k :: 0 <= k < |faces| ==> faces'[k] == faces[k] && (visited + [c])[k] == visited[k];
    LatticeVerticesSnoc(visited, c);
  }

  lemma RowSolidStep(grid: array2<real>, isHole: real -> bool, x: nat, y: nat)
    requires x < grid.Length0 && y < grid.Length1 && !isHole(grid[x, y])
    ensures SolidRows(grid, isHole, x) + RowSolid(grid, isHole, x, y + 1)
         == SolidRows(grid, isHole, x) + RowSolid(grid, isHole, x, y) + [(x, y)]
  {
  }

  /**
   * grid_to_mesh with its hole test resolved. The faces are the quads of the
   * solid cells in row-major order, each wound bottom left, bottom right, top
   * right, top left over the first-seen buffer of their corners, which is
   * then rescaled.
   */
  method GridToMeshWith(grid: array2<real>, cellWidth: real, cellHeight: real, isHole: real -> bool)
    returns (vertices: seq<(real, real)>, faces: seq<Face>)
    ensures var cells := SolidCells(grid, isHole);
      && vertices == Scale(LatticeVertices(cells), cellWidth, cellHeight)
      && |faces| == |cells|
      && forall k :: 0 <= k < |faces| ==> FaceFits(LatticeVertices(cells), faces[k], cells[k])
    ensures forall k :: 0 <= k < |faces| ==> ValidFace(faces[k], |vertices|)
  {
    var vertexDict: map<Vertex, nat> := map[];
    var lattice: seq<Vertex> := [];
    faces := [];
    ghost var visited: seq<Cell> := [];
    var x: nat := 0;
    while x < grid.Length0
      invariant x <= grid.Length0
      invariant visited == SolidRows(grid, isHole, x)
      invariant Visited(vertexDict, lattice, faces, visited)
    {
      var y: nat := 0;
      while y < grid.Length1
        invariant y <= grid.Length1
        invariant visited == SolidRows(grid, isHole, x) + RowSolid(grid, isHole, x, y)
        invariant Visited(vertexDict, lattice, faces, visited)
      {
        if !isHole(grid[x, y]) {
          vertexDict, lattice, faces := EmitQuad(vertexDict, lattice, faces, visited, x, y);
          RowSolidStep(grid, isHole, x, y);
          visited := visited + [(x, y)];
        }
        y := y + 1;
      }
      x := x + 1;
    }
    vertices := Scale(lattice, cellWidth, cellHeight);
  }

  /** grid_to_mesh: a missing `hole_func` means the default test, value == 0. */
  method GridToMesh(grid: array2<real>, cellWidth: real, cellHeight: real, holeFunc: Option<real -> bool>)
    returns (vertices: seq<(real, real)>, faces: seq<Face>)
    ensures var cells := SolidCells(grid, HoleTest(holeFunc));
      && vertices == Scale(LatticeVertices(cells), cellWidth, cellHeight)
      && |faces| == |cells|
      && forall k :: 0 <= k < |faces| ==> FaceFits(LatticeVertices(cells), faces[k], cells[k])
    ensures forall k :: 0 <= k < |faces| ==> ValidFace(faces[k], |vertices|)
  {
    vertices, faces := GridToMeshWith(grid, cellWidth, cellHeight, HoleTest(holeFunc));
  }

  /**
   * What grid_to_mesh promises of its lattice buffer: no lattice point twice,
   * one point per distinct corner of a solid cell, at most four per face, all
   * inside [0, rows] x [0, cols], and one face per solid cell of the grid.
   */
  lemma LatticeMeshShape(grid: array2<real>, isHole: real -> bool)
    ensures var cells := SolidCells(grid, isHole); var vs := LatticeVertices(cells);
      && NoDup(vs)
      && |vs| <= 4 * |cells|
      && |cells| == |SolidSet(grid, isHole)|
      && (forall v :: v in vs <==> exists k :: 0 <= k < |cells| && v in Corners(cells[k]))
      && (forall i :: 0 <= i < |vs| ==> 0 <= vs[i].0 <= grid.Length0 && 0 <= vs[i].1 <= grid.Length1)
  {
    var cells := SolidCells(grid, isHole);
    SolidCellsSpec(grid, isHole);
    SolidCellsCount(grid, isHole);
    LatticeVerticesShape(cells);
    LatticeVerticesBounds(cells, grid.Length0, grid.Length1);
  }

  /** An all-hole grid, or an empty one, gives no vertices and no faces. */
  lemma AllHolesEmptyMesh(grid: array2<real>, isHole: real -> bool)
    requires forall x, y :: 0 <= x < grid.Length0 && 0 <= y < grid.Length1 ==> isHole(grid[x, y])
    ensures SolidCells(grid, isHole) == [] && LatticeVertices(SolidCells(grid, isHole)) == []
  {
    NoSolidCells(grid, isHole);
  }

  /**
   * The vertex list holds four vertices per face exactly when no two distinct
   * solid cells of the grid share a corner.
   */
  lemma FullBuffer(grid: array2<real>, isHole: real -> bool)
    ensures var cells := SolidCells(grid, isHole);
      |LatticeVertices(cells)| == 4 * |cells| <==> SolidApart(grid, isHole)
  {
    LatticeVerticesFull(SolidCells(grid, isHole));
    SolidCellsApart(grid, isHole);
  }

  /**
   * A grid whose only solid cell is (x, y) gives one face, the vertices top
   * left, top right, bottom left, bottom right of that cell, and the quad
   * (2, 3, 1, 0).
   */
  lemma SingleSolidCellMesh(grid: array2<real>, isHole: real -> bool, x: nat, y: nat)
    requires x < grid.Length0 && y < grid.Length1
    requires forall i, j :: 0 <= i < grid.Length0 && 0 <= j < grid.Length1 ==> (isHole(grid[i, j]) <==> (i, j) != (x, y))
    ensures SolidCells(grid, isHole) == [(x, y)]
    ensures LatticeVertices(SolidCells(grid, isHole)) == [(x, y + 1), (x + 1, y + 1), (x, y), (x + 1, y)]
    ensures forall f: Face :: FaceFits(LatticeVertices(SolidCells(grid, isHole)), f, (x, y)) <==> f == (2, 3, 1, 0)
  {
    LoneSolidCell(grid, isHole, x, y);
    SingleCell(x, y);
  }
}
