/**
 * The image side of img_to_mesh: binarize the grayscale grid in place with a
 * fixed threshold, mesh it with the default hole test, and lift the vertices
 * into the z = 0 plane.
 */
module ImageMesh {
  import opened Wrappers
  import opened Lattice
  import opened Grid
  import opened MeshBuilder

  /** The fixed threshold of img_to_mesh; pixels above it become holes. */
  const Threshold: real := 0.5

  /** Cell size img_to_mesh passes to grid_to_mesh. */
  const CellSize: real := 0.5

  /**
   * The value a pixel holds after thresholding: bright pixels (above the
   * threshold) become 0, which the default hole test reads as a hole; all others
   * become 255.
   */
  function Binarize(v: real): (r: real)
    ensures r == 0.0 || r == 255.0
    ensures r == 0.0 <==> v > Threshold
    ensures DefaultHole(r) <==> v > Threshold
  {
    if v > Threshold then 0.0 else 255.0
  }

  /**
   * The threshold step: the mask of pixels above the threshold is computed
   * first, then the masked pixels are set to 0 and the pixels of the inverted
   * mask to 255.
   */
  method ApplyThreshold(img: array2<real>)
    modifies img
    ensures forall x, y :: 0 <= x < img.Length0 && 0 <= y < img.Length1 ==> img[x, y] == Binarize(old(img[x, y]))
  {
    var low := new bool[img.Length0, img.Length1]((x, y) reads img requires 0 <= x < img.Length0 && 0 <= y < img.Length1 => img[x, y] > Threshold);
    forall x, y | 0 <= x < img.Length0 && 0 <= y < img.Length1 && low[x, y] {
      img[x, y] := 0.0;
    }
    forall x, y | 0 <= x < img.Length0 && 0 <= y < img.Length1 && !low[x, y] {
      img[x, y] := 255.0;
    }
  }

  /** A 2-D vertex in the z = 0 plane. */
  function LiftPoint(v: (real, real)): (real, real, real)
  {
    (v.0, v.1, 0.0)
  }

  /** The vertices lifted into 3-D, in order, each with z = 0. */
  function Lift(vs: seq<(real, real)>): (r: seq<(real, real, real)>)
    ensures |r| == |vs|
    ensures forall i :: 0 <= i < |vs| ==> r[i] == LiftPoint(vs[i])
  {
    if vs == [] then [] else [LiftPoint(vs[0])] + Lift(vs[1..])
  }

  /** The first two coordinates of each 3-D vertex. */
  function Flatten(ws: seq<(real, real, real)>): (r: seq<(real, real)>)
    ensures |r| == |ws|
    ensures forall i :: 0 <= i < |ws| ==> r[i] == (ws[i].0, ws[i].1)
  {
    if ws == [] then [] else [(ws[0].0, ws[0].1)] + Flatten(ws[1..])
  }

  /** Lifting loses nothing: dropping z again gives back the 2-D vertices. */
  lemma FlattenLift(vs: seq<(real, real)>)
    ensures Flatten(Lift(vs)) == vs
  {
  }

  /**
   * The pure part of img_to_mesh after loading: threshold the image in place,
   * mesh it with the default hole test and 0.5 x 0.5 cells, and lift the
   * vertices to z = 0; the faces are passed on unchanged. A cell of the image
   * is meshed exactly when its original value is at most the threshold.
   */
  method ImgToMesh(img: array2<real>) returns (vertices: seq<(real, real, real)>, faces: seq<Face>)
    modifies img
    ensures forall x, y :: 0 <= x < img.Length0 && 0 <= y < img.Length1 ==> img[x, y] == Binarize(old(img[x, y]))
    ensures forall x, y :: 0 <= x < img.Length0 && 0 <= y < img.Length1 ==>
      ((x, y) in SolidCells(img, DefaultHole) <==> old(img[x, y]) <= Threshold)
    ensures var cells := SolidCells(img, DefaultHole);
      && vertices == Lift(Scale(LatticeVertices(cells), CellSize, CellSize))
      && |faces| == |cells|
      && forall k :: 0 <= k < |faces| ==> FaceFits(LatticeVertices(cells), faces[k], cells[k])
    ensures forall k :: 0 <= k < |faces| ==> ValidFace(faces[k], |vertices|)
  {
    ApplyThreshold(img);
    SolidCellsSpec(img, DefaultHole);
    var verts;
    verts, faces := GridToMesh(img, CellSize, CellSize, None);
    vertices := Lift(verts);
  }
}
