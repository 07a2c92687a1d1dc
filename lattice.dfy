/**
 * The lattice-space vocabulary of grid_to_mesh: grid cells, the four corners of
 * a cell, quads over a vertex buffer, and the first-seen deduplication of
 * corners that the vertex dictionary performs.
 */
module Lattice {

  /** A grid cell (row, column), as numpy's ndenumerate yields it. */
  type Cell = (nat, nat)

  /** A lattice corner (x, y), before rescaling by the cell size. */
  type Vertex = (int, int)

  /** A quad: four indices into the vertex buffer. */
  type Face = (nat, nat, nat, nat)

  function TopLeft(c: Cell): Vertex { (c.0, c.1 + 1) }
  function TopRight(c: Cell): Vertex { (c.0 + 1, c.1 + 1) }
  function BottomLeft(c: Cell): Vertex { (c.0, c.1) }
  function BottomRight(c: Cell): Vertex { (c.0 + 1, c.1) }

  /** The corners of a cell in the order grid_to_mesh asks for their ids. */
  function Corners(c: Cell): seq<Vertex>
  {
    [TopLeft(c), TopRight(c), BottomLeft(c), BottomRight(c)]
  }

  /** Every corner lookup made while visiting `cells`, in order. */
  ghost function CornerStream(cells: seq<Cell>): seq<Vertex>
  {
    if cells == [] then [] else CornerStream(cells[..|cells| - 1]) + Corners(cells[|cells| - 1])
  }

  ghost predicate NoDup<T>(s: seq<T>)
  {
    forall i, j :: 0 <= i < j < |s| ==> s[i] != s[j]
  }

  /** `s` with `v` appended unless it is already there. */
  ghost function Add<T>(s: seq<T>, v: T): seq<T>
  {
    if v in s then s else s + [v]
  }

  /** The distinct elements of `s`, in the order of their first occurrence. */
  ghost function Dedup<T>(s: seq<T>): seq<T>
  {
    if s == [] then [] else Add(Dedup(s[..|s| - 1]), s[|s| - 1])
  }

  /** The lattice vertex buffer that visiting the solid cells `cells` produces. */
  ghost function LatticeVertices(cells: seq<Cell>): seq<Vertex>
  {
    Dedup(CornerStream(cells))
  }

  /** Every index of `f` is an index of a buffer of `n` vertices. */
  ghost predicate ValidFace(f: Face, n: nat)
  {
    f.0 < n && f.1 < n && f.2 < n && f.3 < n
  }

  /**
   * `f` is the quad of cell `c` over `vs`, wound bottom left, bottom right,
   * top right, top left.
   */
  ghost predicate FaceFits(vs: seq<Vertex>, f: Face, c: Cell)
  {
    && ValidFace(f, |vs|)
    && vs[f.0] == BottomLeft(c)
    && vs[f.1] == BottomRight(c)
    && vs[f.2] == TopRight(c)
    && vs[f.3] == TopLeft(c)
  }

  lemma DedupSnoc<T>(s: seq<T>, v: T)
    ensures Dedup(s + [v]) == Add(Dedup(s), v)
  {
  }

  /** Dedup keeps exactly the elements of its input. */
  lemma {:induction false} DedupElements<T>(s: seq<T>)
    ensures forall v :: v in Dedup(s) <==> v in s
  {
    if s != [] {
      var p := s[..|s| - 1];
      DedupElements(p);
      assert s == p + [s[|s| - 1]];
    }
  }

  lemma DedupElement<T>(s: seq<T>, v: T)
    ensures v in Dedup(s) <==> v in s
  {
    DedupElements(s);
  }

  /** Dedup never repeats an element. */
  lemma {:induction false} DedupNoDup<T>(s: seq<T>)
    ensures NoDup(Dedup(s))
  {
    if s != [] {
      DedupNoDup(s[..|s| - 1]);
    }
  }

  /** Dedup never grows its input. */
  lemma {:induction false} DedupLength<T>(s: seq<T>)
    ensures |Dedup(s)| <= |s|
  {
    if s != [] {
      DedupLength(s[..|s| - 1]);
    }
  }

  /** Deduplicating a longer stream only appends: earlier ids never move. */
  lemma {:induction false} DedupPrefix<T>(s: seq<T>, t: seq<T>)
    ensures Dedup(s) <= Dedup(s + t)
  {
    if t != [] {
      var u := t[..|t| - 1];
      DedupPrefix(s, u);
      assert (s + t)[..|s + t| - 1] == s + u;
    } else {
      assert s + t == s;
    }
  }

  lemma CornerStreamSnoc(cells: seq<Cell>, c: Cell)
    ensures CornerStream(cells + [c]) == CornerStream(cells) + Corners(c)
  {
  }

  /** Each visited cell contributes exactly four corner lookups. */
  lemma {:induction false} CornerStreamLength(cells: seq<Cell>)
    ensures |CornerStream(cells)| == 4 * |cells|
  {
    if cells != [] {
      CornerStreamLength(cells[..|cells| - 1]);
    }
  }

  /** A lattice point is looked up iff it is a corner of some visited cell. */
  lemma {:induction false} CornerStreamElements(cells: seq<Cell>)
    ensures forall v :: v in CornerStream(cells) <==> exists k :: 0 <= k < |cells| && v in Corners(cells[k])
  {
    if cells != [] {
      var p := cells[..|cells| - 1];
      CornerStreamElements(p);
      assert cells == p + [cells[|cells| - 1]];
      forall v | v in CornerStream(cells)
        ensures exists k :: 0 <= k < |cells| && v in Corners(cells[k])
      {
        if v in CornerStream(p) {
          var k :| 0 <= k < |p| && v in Corners(p[k]);
          assert cells[k] == p[k];
        } else {
          assert v in Corners(cells[|cells| - 1]);
        }
      }
      forall v | exists k :: 0 <= k < |cells| && v in Corners(cells[k])
        ensures v in CornerStream(cells)
      {
        var k :| 0 <= k < |cells| && v in Corners(cells[k]);
        if k < |p| {
          assert p[k] == cells[k];
        }
      }
    }
  }

  /** Visiting one more cell runs the four corner lookups of that cell in order. */
  lemma LatticeVerticesSnoc(cells: seq<Cell>, c: Cell)
    ensures LatticeVertices(cells + [c])
         == Add(Add(Add(Add(LatticeVertices(cells), TopLeft(c)), TopRight(c)), BottomLeft(c)), BottomRight(c))
  {
    var s := CornerStream(cells);
    CornerStreamSnoc(cells, c);
    assert s + Corners(c) == s + [TopLeft(c)] + [TopRight(c)] + [BottomLeft(c)] + [BottomRight(c)];
    DedupSnoc(s, TopLeft(c));
    DedupSnoc(s + [TopLeft(c)], TopRight(c));
    DedupSnoc(s + [TopLeft(c)] + [TopRight(c)], BottomLeft(c));
    DedupSnoc(s + [TopLeft(c)] + [TopRight(c)] + [BottomLeft(c)], BottomRight(c));
  }

  /**
   * The vertex buffer holds one vertex per distinct corner of a visited cell,
   * and no more than four per visited cell.
   */
  lemma LatticeVerticesShape(cells: seq<Cell>)
    ensures NoDup(LatticeVertices(cells))
    ensures |LatticeVertices(cells)| <= 4 * |cells|
    ensures forall v :: v in LatticeVertices(cells) <==> exists k :: 0 <= k < |cells| && v in Corners(cells[k])
  {
    var s := CornerStream(cells);
    DedupNoDup(s);
    DedupLength(s);
    CornerStreamLength(cells);
    DedupElements(s);
    CornerStreamElements(cells);
    forall v: Vertex
      ensures v in LatticeVertices(cells) <==> exists k :: 0 <= k < |cells| && v in Corners(cells[k])
    {
      DedupElement(s, v);
    }
  }

  /** Concatenation is repeat-free iff both parts are and they have no element in common. */
  lemma NoDupConcat<T>(a: seq<T>, b: seq<T>)
    ensures NoDup(a + b) <==> NoDup(a) && NoDup(b) && forall v :: v in a ==> v !in b
  {
    var s := a + b;
    if NoDup(s) {
      forall i, j | 0 <= i < j < |a| ensures a[i] != a[j] {
        assert s[i] == a[i] && s[j] == a[j];
      }
      forall i, j | 0 <= i < j < |b| ensures b[i] != b[j] {
        assert s[|a| + i] == b[i] && s[|a| + j] == b[j];
      }
      forall i, j | 0 <= i < |a| && 0 <= j < |b| ensures a[i] != b[j] {
        assert s[i] == a[i] && s[|a| + j] == b[j];
      }
      forall v | v in a ensures v !in b {
        var i :| 0 <= i < |a| && a[i] == v;
      }
    }
    if NoDup(a) && NoDup(b) && forall v :: v in a ==> v !in b {
      forall i, j | 0 <= i < j < |s| ensures s[i] != s[j] {
        if j < |a| {
          assert s[i] == a[i] && s[j] == a[j];
        } else if i >= |a| {
          assert s[i] == b[i - |a|] && s[j] == b[j - |a|];
        } else {
          assert s[i] == a[i] && s[j] == b[j - |a|];
          assert a[i] in a && b[j - |a|] in b;
        }
      }
    }
  }

  /** Deduplication loses nothing exactly when the input has no repeats. */
  lemma {:induction false} DedupFull<T>(s: seq<T>)
    ensures |Dedup(s)| == |s| <==> NoDup(s)
  {
    if s != [] {
      var p := s[..|s| - 1];
      var e := s[|s| - 1];
      DedupFull(p);
      DedupLength(p);
      DedupElement(p, e);
      assert s == p + [e];
      NoDupConcat(p, [e]);
    }
  }

  /**
   * Two cells share a lattice corner exactly when they are equal or adjacent,
   * diagonally included.
   */
  ghost predicate ShareCorner(a: Cell, b: Cell)
  {
    -1 <= a.0 - b.0 <= 1 && -1 <= a.1 - b.1 <= 1
  }

  lemma ShareCornerSpec(a: Cell, b: Cell)
    ensures ShareCorner(a, b) <==> exists v :: v in Corners(a) && v in Corners(b)
  {
    if ShareCorner(a, b) {
      var v: Vertex := (if a.0 < b.0 then b.0 else a.0, if a.1 < b.1 then b.1 else a.1);
      assert v in Corners(a) && v in Corners(b);
    }
  }

  /** No two of the cells (at different positions of the list) share a corner. */
  ghost predicate Apart(cells: seq<Cell>)
  {
    forall k, l :: 0 <= k < l < |cells| ==> !ShareCorner(cells[k], cells[l])
  }

  lemma ApartSnoc(p: seq<Cell>, c: Cell)
    ensures Apart(p + [c]) <==> Apart(p) && forall k :: 0 <= k < |p| ==> !ShareCorner(p[k], c)
  {
    var s := p + [c];
    assert forall k :: 0 <= k < |p| ==> s[k] == p[k];
    assert s[|p|] == c;
  }

  /** A new cell looks up no corner seen before iff it shares no corner with an earlier cell. */
  lemma FreshCorners(p: seq<Cell>, c: Cell)
    ensures (forall v :: v in CornerStream(p) ==> v !in Corners(c)) <==> forall k :: 0 <= k < |p| ==> !ShareCorner(p[k], c)
  {
    CornerStreamElements(p);
    forall k | 0 <= k < |p| {
      ShareCornerSpec(p[k], c);
    }
  }

  /** The corner lookups never repeat a point iff no two visited cells share a corner. */
  lemma {:induction false} CornerStreamNoDup(cells: seq<Cell>)
    ensures NoDup(CornerStream(cells)) <==> Apart(cells)
  {
    if cells != [] {
      var p := cells[..|cells| - 1];
      var c := cells[|cells| - 1];
      CornerStreamNoDup(p);
      assert NoDup(Corners(c));
      NoDupConcat(CornerStream(p), Corners(c));
      FreshCorners(p, c);
      assert cells == p + [c];
      ApartSnoc(p, c);
    }
  }

  /**
   * The buffer reaches four vertices per visited cell exactly when the corner
   * lookups never repeat, that is, when no two visited cells share a corner.
   */
  lemma LatticeVerticesFull(cells: seq<Cell>)
    ensures |LatticeVertices(cells)| == 4 * |cells| <==> NoDup(CornerStream(cells))
    ensures |LatticeVertices(cells)| == 4 * |cells| <==> Apart(cells)
  {
    CornerStreamLength(cells);
    DedupFull(CornerStream(cells));
    CornerStreamNoDup(cells);
  }

  /** Cells inside a rows x cols grid only have corners in [0, rows] x [0, cols]. */
  lemma LatticeVerticesBounds(cells: seq<Cell>, rows: nat, cols: nat)
    requires forall k :: 0 <= k < |cells| ==> cells[k].0 < rows && cells[k].1 < cols
    ensures forall i :: 0 <= i < |LatticeVertices(cells)| ==>
      0 <= LatticeVertices(cells)[i].0 <= rows && 0 <= LatticeVertices(cells)[i].1 <= cols
  {
    LatticeVerticesShape(cells);
    forall i | 0 <= i < |LatticeVertices(cells)|
      ensures 0 <= LatticeVertices(cells)[i].0 <= rows && 0 <= LatticeVertices(cells)[i].1 <= cols
    {
      var v := LatticeVertices(cells)[i];
      assert v in LatticeVertices(cells);
      var k :| 0 <= k < |cells| && v in Corners(cells[k]);
    }
  }

  /** Over a buffer without repeats, a cell has exactly one fitting quad. */
  lemma FaceFitsUnique(vs: seq<Vertex>, f: Face, g: Face, c: Cell)
    requires NoDup(vs) && FaceFits(vs, f, c) && FaceFits(vs, g, c)
    ensures f == g
  {
  }

  /** A quad that fits a buffer still fits any extension of that buffer. */
  lemma FaceFitsGrow(vs: seq<Vertex>, ws: seq<Vertex>, f: Face, c: Cell)
    requires vs <= ws && FaceFits(vs, f, c)
    ensures FaceFits(ws, f, c)
  {
  }

  /**
   * A lone solid cell (x, y) yields the buffer top left, top right, bottom left,
   * bottom right, and the quad (2, 3, 1, 0).
   */
  lemma SingleCell(x: nat, y: nat)
    ensures LatticeVertices([(x, y)]) == [(x, y + 1), (x + 1, y + 1), (x, y), (x + 1, y)]
    ensures forall f: Face :: FaceFits(LatticeVertices([(x, y)]), f, (x, y)) <==> f == (2, 3, 1, 0)
  {
    LatticeVerticesSnoc([], (x, y));
    assert [] + [(x, y)] == [(x, y)];
    var vs := LatticeVertices([(x, y)]);
    assert vs == [(x, y + 1), (x + 1, y + 1), (x, y), (x + 1, y)];
    forall f: Face | FaceFits(vs, f, (x, y))
      ensures f == (2, 3, 1, 0)
    {
      LatticeVerticesShape([(x, y)]);
      FaceFitsUnique(vs, f, (2, 3, 1, 0), (x, y));
    }
  }
}
