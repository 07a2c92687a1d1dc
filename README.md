# Image to mesh: the occupancy-grid mesher

This project models the algorithmic core of an add-on that turns a grayscale
image into a mesh, and proves properties of that model in Dafny.

- `grid_to_mesh` walks a 2-D grid in row-major order (numpy's `ndenumerate`)
  and skips the cells a hole test accepts. The default test is `value == 0`.
- For every other cell it looks up the four lattice corners (top left, top
  right, bottom left, bottom right) in a dictionary. The dictionary appends
  each new corner to the vertex list and assigns it the next id.
- It appends the quad `(bottom_left, bottom_right, top_right, top_left)`.
- At the end it rescales every lattice corner by `(cell_width, cell_height)`.
- `img_to_mesh` thresholds the image in place first. Pixels above 0.5 become
  0 (holes under the default test) and all others become 255.
- It then meshes the image with 0.5 x 0.5 cells and lifts every vertex to
  `z = 0`. The faces are passed on unchanged.

Modules:

- `Wrappers` (`wrappers.dfy`): `Option`, which stands in for Python's `None`
  default of `hole_func`.
- `Lattice` (`lattice.dfy`): cells, lattice corners and quads.
  - The specification of the vertex buffer: `LatticeVertices(cells)` is the
    first-occurrence deduplication of the stream of corner lookups.
  - `FaceFits` states the fixed winding of a quad.
  - Lemmas about both.
- `Grid` (`grid.dfy`): the grid is an `array2<real>`.
  - `SolidCells(grid, isHole)` is the sequence of solid cells in row-major
    order.
  - Lemmas show that this sequence is sorted, holds exactly the solid cells,
    and holds each of them once.
- `MeshBuilder` (`mesh_builder.dfy`): `grid_to_mesh` as an imperative method
  with nested loops.
  - Its state is a `map` for the vertex dictionary and `seq`s for the
    vertices and faces.
  - The inner `vertex_id` is a method that takes and returns that state.
  - The method is proved against the specification functions above.
- `ImageMesh` (`image_mesh.dfy`): the threshold step and the 3-D lift of
  `img_to_mesh`.
  - The threshold step computes a boolean mask array, then does two masked
    assignments on the image array.

Where the add-on's options and its code part ways (the model follows
`img_to_mesh` as written):

- The operator offers an `epsilon` threshold (default 0.5) and an `invert`
  flag (operator.py:31-34), and passes them on (operator.py:43-46).
  `img_to_mesh` accepts neither (helper.py:115-116).
- `img_to_mesh` fixes the threshold at 0.5 (helper.py:118). Strict `>` marks a
  hole, so a pixel equal to 0.5 stays solid.
- Inversion is only a TODO with `invert = False` (helper.py:119-120). The
  model has neither a configurable threshold nor an invert flag.
- The solid is made by extruding the flat mesh and translating it by the
  height, inside `createMesh` (helper.py:106-108). The model stops at the
  flat quad mesh that is handed to that call.

## Model

| member | source | states |
|---|---|---|
| MeshBuilder.DefaultHole | helper.py:48 | the default hole test: a cell is a hole exactly when its value is 0 |
| MeshBuilder.HoleTest | helper.py:47-48 | the hole test in force: the caller's `hole_func` when given, the default test when it is `None` |
| MeshBuilder.ScalePoint | helper.py:77 | one lattice point in real coordinates, `(x * cell_width, y * cell_height)` |
| Lattice.TopLeft | helper.py:69 | the top-left corner of cell (x, y) is `(x, y + 1)` |
| Lattice.TopRight | helper.py:70 | the top-right corner of cell (x, y) is `(x + 1, y + 1)` |
| Lattice.BottomLeft | helper.py:71 | the bottom-left corner of cell (x, y) is `(x, y)` |
| Lattice.BottomRight | helper.py:72 | the bottom-right corner of cell (x, y) is `(x + 1, y)` |
| Lattice.Corners | helper.py:69-72 | the four corners of a cell in the order their ids are requested: TL, TR, BL, BR |
| Lattice.CornerStream | helper.py:64-72 | every corner lookup made while visiting a list of cells, in order |
| Lattice.Add | helper.py:54-59 | one dictionary lookup on the vertex list: `v` is appended exactly when it is not already there |
| MeshBuilder.Indexed | helper.py:54-59 | the relation `vertex_dict` keeps with `vertices`: `vertex_dict[v] == i` exactly when `vertices[i] == v` |
| MeshBuilder.Visited | helper.py:64-73 | the state of the cell loop after a prefix of the solid cells: the dictionary indexes the buffer, the buffer is the first-seen corners of those cells, and face k is the quad of the k-th of them |
| ImageMesh.Threshold | helper.py:118 | the fixed threshold 0.5 |
| ImageMesh.CellSize | helper.py:129 | the cell width and height 0.5 that `img_to_mesh` passes to `grid_to_mesh` |
| Lattice.Dedup | helper.py:54-59 | what the dictionary does to a stream of lookups: the distinct vertices in order of first occurrence |
| Lattice.LatticeVertices | helper.py:54-72 | the vertex list after visiting a list of cells: the first-seen corners of those cells |
| Lattice.FaceFits | helper.py:73 | a face is the quad of a cell: its four indices are valid and point at the cell's BL, BR, TR, TL corners, in that order |
| Lattice.ShareCorner | helper.py:69-72 | two cells share a lattice corner exactly when they differ by at most one in each coordinate |
| Grid.RowSolid | helper.py:64-66 | the cells of one row that the walk keeps, left to right |
| Grid.SolidRows | helper.py:64-66 | the cells of the first m rows that the walk keeps, in row-major order |
| Grid.SolidCells | helper.py:64-66 | the cells of the whole grid that the walk keeps, in the order `ndenumerate` visits them |
| ImageMesh.LiftPoint | helper.py:132 | one 2-D vertex in 3-D, `(x, y, 0)` |
| MeshBuilder.VertexId | helper.py:50-61 | the dictionary stays an exact index of the vertex list (`dict[v] == i` iff `vertices[i] == v`); the list grows by `v` only when `v` is new; the returned id is a position holding `v` |
| MeshBuilder.EmitQuad | helper.py:68-73 | after one solid cell, the buffer is the first-seen corners of the cells visited so far, the dictionary still indexes it, every earlier quad keeps fitting its cell, and one quad is appended, wound BL, BR, TR, TL over the new cell's corners |
| MeshBuilder.GridToMeshWith | helper.py:41-79 | for any hole test, the vertices are the rescaled first-seen corners of the solid cells in row-major order; there is one face per solid cell, and face k is the quad of the k-th solid cell; every face index is below the vertex count |
| MeshBuilder.GridToMesh | helper.py:28-79 | the same result, with a missing `hole_func` meaning the test `value == 0` |
| MeshBuilder.Scale | helper.py:77 | rescaling keeps the length and the order and maps vertex i to `(x_i * cell_width, y_i * cell_height)` |
| MeshBuilder.ScaleKeepsDistinct | helper.py:77 | with non-zero cell sizes, rescaling a repeat-free vertex list gives a repeat-free list |
| MeshBuilder.RowSolidStep | helper.py:64-66 | visiting a solid cell extends the row-major walk by exactly that cell |
| MeshBuilder.LatticeMeshShape | helper.py:41-73 | the vertex list of a grid has no repeats, has one entry per distinct corner of a solid cell, has at most four entries per face, and lies in `[0, rows] x [0, cols]`; the face count equals the number of solid cells |
| MeshBuilder.FullBuffer | helper.py:54-73 | the vertex list holds exactly four vertices per face iff no two distinct solid cells of the grid share a corner |
| MeshBuilder.SingleSolidCellMesh | helper.py:64-73 | a grid whose only solid cell is (x, y) walks just that cell, gives the vertices `(x,y+1), (x+1,y+1), (x,y), (x+1,y)`, and its one face can only be `(2, 3, 1, 0)` |
| MeshBuilder.AllHolesEmptyMesh | helper.py:64-73 | a grid whose cells are all holes, an empty grid included, gives no faces and no vertices |
| Grid.RowSolidSpec | helper.py:64-66 | the walk of one row yields only solid cells of that row, in increasing column order, and misses none |
| Grid.SolidRowsSound | helper.py:64-66 | the walk of the first m rows yields only solid cells of those rows |
| Grid.SolidRowsSorted | helper.py:64 | the walk of the first m rows is strictly increasing in row-major order |
| Grid.SolidRowsComplete | helper.py:64-66 | the walk of the first m rows misses no solid cell of those rows |
| Grid.SolidCellsSpec | helper.py:64-66 | the solid-cell sequence of the whole grid is sound, in row-major order and complete |
| Grid.SolidCellsCount | helper.py:64-66 | the solid-cell sequence is as long as the set of cells the hole test rejects |
| Grid.NoSolidCells | helper.py:64-66 | the solid-cell sequence is empty iff every cell is a hole |
| Grid.SolidCellsApart | helper.py:64-66 | the walk's cells pairwise share no corner iff no two distinct solid cells of the grid do |
| Grid.LoneSolidCell | helper.py:64-66 | a grid whose only solid cell is (x, y) walks exactly `[(x, y)]` |
| Lattice.DedupSnoc | helper.py:54-59 | one more lookup appends the vertex iff it is new |
| Lattice.DedupElements | helper.py:54-59 | the dictionary's list holds exactly the vertices looked up |
| Lattice.DedupElement | helper.py:54-59 | the same fact for one vertex |
| Lattice.DedupNoDup | helper.py:54-59 | the dictionary's list never repeats a vertex |
| Lattice.DedupLength | helper.py:54-59 | the list is never longer than the number of lookups |
| Lattice.DedupPrefix | helper.py:54-61 | later lookups only append, so an id once given never changes |
| Lattice.DedupFull | helper.py:54-59 | the dictionary keeps every lookup as a new vertex iff the lookups never repeat |
| Lattice.CornerStreamSnoc | helper.py:69-72 | visiting one more cell adds its four lookups in the order TL, TR, BL, BR |
| Lattice.CornerStreamLength | helper.py:69-72 | each visited cell makes exactly four lookups |
| Lattice.CornerStreamElements | helper.py:69-72 | a lattice point is looked up iff it is a corner of some visited cell |
| Lattice.ShareCornerSpec | helper.py:69-72 | two cells differ by at most one in each coordinate iff some lattice point is a corner of both |
| Lattice.FreshCorners | helper.py:69-72 | a new cell looks up no corner seen before iff it shares no corner with an earlier cell |
| Lattice.CornerStreamNoDup | helper.py:69-72 | the corner lookups never repeat a point iff no two visited cells share a corner |
| Lattice.LatticeVerticesFull | helper.py:54-72 | the buffer has exactly four vertices per visited cell iff the lookups never repeat, that is, iff no two visited cells share a corner |
| Lattice.LatticeVerticesSnoc | helper.py:69-72 | the buffer after one more cell is the old buffer extended by the four lookups, in order |
| Lattice.LatticeVerticesShape | helper.py:54-72 | the buffer has no repeats, has at most four vertices per cell, and holds exactly the corners of the visited cells |
| Lattice.LatticeVerticesBounds | helper.py:68-72 | cells inside a rows x cols grid only have corners in `[0, rows] x [0, cols]` |
| Lattice.FaceFitsUnique | helper.py:73 | over a repeat-free buffer, a cell has only one quad with the fixed winding |
| Lattice.FaceFitsGrow | helper.py:54-61 | a quad stays valid and keeps its corners when the buffer is appended to |
| Lattice.SingleCell | helper.py:64-73 | a lone solid cell (x, y) gives the vertices `(x,y+1), (x+1,y+1), (x,y), (x+1,y)` and the quad `(2, 3, 1, 0)`, and no other quad fits it |
| ImageMesh.Binarize | helper.py:124-127 | a thresholded pixel is 0 or 255; it is 0, a hole under the default test, iff the original value is above 0.5 |
| ImageMesh.ApplyThreshold | helper.py:124-127 | after the two masked assignments, every pixel holds the thresholded value of its original |
| ImageMesh.Lift | helper.py:132 | lifting keeps the length and the order and maps `(x, y)` to `(x, y, 0)` |
| ImageMesh.Flatten | helper.py:132 | dropping z keeps the length and the order and keeps x and y |
| ImageMesh.FlattenLift | helper.py:132 | dropping z after lifting gives back the 2-D vertices |
| ImageMesh.ImgToMesh | helper.py:118-133 | the image is thresholded in place; a cell is meshed iff its original value is at most 0.5; the 3-D vertices are the lifted, 0.5-scaled first-seen corners of those cells; the faces are passed on unchanged and fit their cells |

## Left out

- `load_image` (helper.py:7-26): it loads and downscales the image in the
  host application and averages RGB to gray. That is I/O and floating point.
  The model takes the gray grid as its input.
- `createMesh` (helper.py:82-112): the host application builds the mesh, and
  its extrusion library extrudes the faces and translates them by the height.
  Those are foreign calls whose code is not part of this model. So
  watertightness and side walls are not modelled.
- `clean_scene` and `compute_intersection` (helper.py:143-160): they act on
  global scene state and boolean modifiers in the host application.
- The `origin`, `scale` and `rot` arguments of `img_to_mesh` (helper.py:115-116,
  138-139): they set host-object properties.
- operator.py is not part of this model. It is the add-on's UI operator, and
  it passes `invert`, `epsilon` and `height` arguments that `img_to_mesh`
  does not accept.
- `__init__.py` is not part of this model. It only registers the add-on.
- Unpacking `grid.shape` into two values at helper.py:41 raises a
  `ValueError` for a grid that is not 2-D. The model's grid is an `array2`,
  so that input cannot occur.
- The `print` calls at helper.py:10, 12 and 125 are console output and are
  not modelled.
- Pixel values and cell sizes are mathematical reals, not floating point.
  NaN, rounding and overflow are not modelled.
- A hole test is a total function `real -> bool`. A Python `hole_func` that
  raises an exception or has side effects is not modelled.
- MeshBuilder.ScaleKeepsDistinct: stated only for non-zero cell sizes. With a zero
  size, distinct lattice points can collide after rescaling. This is a
  mathematical consequence, not a promise the code makes.
