/**
 * The cell walk of grid_to_mesh: numpy's ndenumerate visits a 2-D array in
 * row-major order, and the solid cells are those the hole test rejects.
 */
module Grid {
  import opened Lattice

  /** The solid cells (x, y) of row `x` with y < n, left to right. */
  ghost function RowSolid(grid: array2<real>, isHole: real -> bool, x: nat, n: nat): seq<Cell>
    reads grid
    requires x < grid.Length0 && n <= grid.Length1
    decreases n
  {
    if n == 0 then []
    else RowSolid(grid, isHole, x, n - 1) + (if isHole(grid[x, n - 1]) then [] else [(x, n - 1)])
  }

  /** The solid cells of the first `m` rows, in row-major order. */
  ghost function SolidRows(grid: array2<real>, isHole: real -> bool, m: nat): seq<Cell>
    reads grid
    requires m <= grid.Length0
    decreases m
  {
    if m == 0 then [] else SolidRows(grid, isHole, m - 1) + RowSolid(grid, isHole, m - 1, grid.Length1)
  }

  /** All solid cells of the grid, in the order ndenumerate visits them. */
  ghost function SolidCells(grid: array2<real>, isHole: real -> bool): seq<Cell>
    reads grid
  {
    SolidRows(grid, isHole, grid.Length0)
  }

  /** The solid cells as a set, with no order. */
  ghost function SolidSet(grid: array2<real>, isHole: real -> bool): set<Cell>
    reads grid
  {
    set x: nat, y: nat | x < grid.Length0 && y < grid.Length1 && !isHole(grid[x, y]) :: (x, y)
  }

  /** Cell `c` lies in the first `m` rows of the grid and is solid. */
  ghost predicate SolidIn(grid: array2<real>, isHole: real -> bool, m: nat, c: Cell)
    reads grid
  {
    c.0 < m && c.0 < grid.Length0 && c.1 < grid.Length1 && !isHole(grid[c.0, c.1])
  }

  /** Row-major order on cells. */
  ghost predicate Before(a: Cell, b: Cell)
  {
    a.0 < b.0 || (a.0 == b.0 && a.1 < b.1)
  }

  lemma {:induction false} RowSolidSpec(grid: array2<real>, isHole: real -> bool, x: nat, n: nat)
    requires x < grid.Length0 && n <= grid.Length1
    ensures var r := RowSolid(grid, isHole, x, n);
      && (forall k :: 0 <= k < |r| ==> r[k].0 == x && r[k].1 < n && !isHole(grid[x, r[k].1]))
      && (forall k, l :: 0 <= k < l < |r| ==> r[k].1 < r[l].1)
      && (forall y :: 0 <= y < n && !isHole(grid[x, y]) ==> (x, y) in r)
  {
    if n > 0 {
      RowSolidSpec(grid, isHole, x, n - 1);
    }
  }

  /** The walk over the first `m` rows yields only solid cells of those rows. */
  lemma {:induction false} SolidRowsSound(grid: array2<real>, isHole: real -> bool, m: nat)
    requires m <= grid.Length0
    ensures forall k :: 0 <= k < |SolidRows(grid, isHole, m)| ==> SolidIn(grid, isHole, m, SolidRows(grid, isHole, m)[k])
  {
    if m > 0 {
      var p := SolidRows(grid, isHole, m - 1);
      var q := RowSolid(grid, isHole, m - 1, grid.Length1);
      SolidRowsSound(grid, isHole, m - 1);
      RowSolidSpec(grid, isHole, m - 1, grid.Length1);
      var r := p + q;
      forall k | 0 <= k < |r|
        ensures SolidIn(grid, isHole, m, r[k])
      {
        if k < |p| {
          assert r[k] == p[k] && SolidIn(grid, isHole, m - 1, p[k]);
        } else {
          assert r[k] == q[k - |p|];
        }
      }
    }
  }

  /** The walk over the first `m` rows is strictly increasing in row-major order. */
  lemma {:induction false} SolidRowsSorted(grid: array2<real>, isHole: real -> bool, m: nat)
    requires m <= grid.Length0
    ensures forall k, l :: 0 <= k < l < |SolidRows(grid, isHole, m)| ==>
      Before(SolidRows(grid, isHole, m)[k], SolidRows(grid, isHole, m)[l])
  {
    if m > 0 {
      var p := SolidRows(grid, isHole, m - 1);
      var q := RowSolid(grid, isHole, m - 1, grid.Length1);
      SolidRowsSorted(grid, isHole, m - 1);
      SolidRowsSound(grid, isHole, m - 1);
      RowSolidSpec(grid, isHole, m - 1, grid.Length1);
      var r := p + q;
      forall k, l | 0 <= k < l < |r|
        ensures Before(r[k], r[l])
      {
        if l < |p| {
          assert r[k] == p[k] && r[l] == p[l];
        } else if k >= |p| {
          assert r[k] == q[k - |p|] && r[l] == q[l - |p|];
        } else {
          assert r[k] == p[k] && r[l] == q[l - |p|] && SolidIn(grid, isHole, m - 1, p[k]);
        }
      }
    }
  }

  /** The walk over the first `m` rows misses no solid cell of those rows. */
  lemma {:induction false} SolidRowsComplete(grid: array2<real>, isHole: real -> bool, m: nat)
    requires m <= grid.Length0
    ensures forall x, y :: 0 <= x < m && 0 <= y < grid.Length1 && !isHole(grid[x, y]) ==> (x, y) in SolidRows(grid, isHole, m)
  {
    if m > 0 {
      var p := SolidRows(grid, isHole, m - 1);
      var q := RowSolid(grid, isHole, m - 1, grid.Length1);
      SolidRowsComplete(grid, isHole, m - 1);
      RowSolidSpec(grid, isHole, m - 1, grid.Length1);
      var r := p + q;
      forall x, y | 0 <= x < m && 0 <= y < grid.Length1 && !isHole(grid[x, y])
        ensures (x, y) in r
      {
        if x < m - 1 {
          assert (x, y) in p;
        } else {
          assert (x, y) in q;
        }
      }
    }
  }

  /**
   * SolidCells walks every cell of the grid once in row-major order and keeps
   * exactly the cells the hole test rejects.
   */
  lemma SolidCellsSpec(grid: array2<real>, isHole: real -> bool)
    ensures var r := SolidCells(grid, isHole);
      && (forall k :: 0 <= k < |r| ==> r[k].0 < grid.Length0 && r[k].1 < grid.Length1 && !isHole(grid[r[k].0, r[k].1]))
      && (forall k, l :: 0 <= k < l < |r| ==> Before(r[k], r[l]))
      && (forall x, y :: 0 <= x < grid.Length0 && 0 <= y < grid.Length1 && !isHole(grid[x, y]) ==> (x, y) in r)
  {
    SolidRowsSound(grid, isHole, grid.Length0);
    SolidRowsSorted(grid, isHole, grid.Length0);
    SolidRowsComplete(grid, isHole, grid.Length0);
  }

  /** Distinct elements: the set of a repeat-free sequence is as large as the sequence. */
  lemma {:induction false} DistinctCard(s: seq<Cell>)
    requires NoDup(s)
    ensures |set k | 0 <= k < |s| :: s[k]| == |s|
  {
    if s != [] {
      var p := s[..|s| - 1];
      DistinctCard(p);
      var e := s[|s| - 1];
      assert (set k | 0 <= k < |s| :: s[k]) == (set k | 0 <= k < |p| :: p[k]) + {e};
      assert e !in (set k | 0 <= k < |p| :: p[k]);
    }
  }

  /** The walk visits one entry per solid cell: its length is the solid-cell count. */
  lemma SolidCellsCount(grid: array2<real>, isHole: real -> bool)
    ensures |SolidCells(grid, isHole)| == |SolidSet(grid, isHole)|
  {
    var r := SolidCells(grid, isHole);
    SolidCellsSpec(grid, isHole);
    assert NoDup(r) by {
      forall k, l | 0 <= k < l < |r| ensures r[k] != r[l] {
        assert Before(r[k], r[l]);
      }
    }
    DistinctCard(r);
    assert (set k | 0 <= k < |r| :: r[k]) == SolidSet(grid, isHole);
  }

  /** The walk yields nothing exactly when every cell is a hole (an empty grid included). */
  lemma NoSolidCells(grid: array2<real>, isHole: real -> bool)
    ensures SolidCells(grid, isHole) == [] <==>
      forall x, y :: 0 <= x < grid.Length0 && 0 <= y < grid.Length1 ==> isHole(grid[x, y])
  {
    SolidCellsSpec(grid, isHole);
    var r := SolidCells(grid, isHole);
    if r != [] {
      assert !isHole(grid[r[0].0, r[0].1]);
    }
  }

  /** No two distinct solid cells of the grid share a lattice corner. */
  ghost predicate SolidApart(grid: array2<real>, isHole: real -> bool)
    reads grid
  {
    forall a, b :: SolidIn(grid, isHole, grid.Length0, a) && SolidIn(grid, isHole, grid.Length0, b) && a != b ==> !ShareCorner(a, b)
  }

  /** The walk's cells are pairwise corner-disjoint iff the grid's solid cells are. */
  lemma SolidCellsApart(grid: array2<real>, isHole: real -> bool)
    ensures Apart(SolidCells(grid, isHole)) <==> SolidApart(grid, isHole)
  {
    var r := SolidCells(grid, isHole);
    SolidRowsSound(grid, isHole, grid.Length0);
    SolidRowsSorted(grid, isHole, grid.Length0);
    SolidRowsComplete(grid, isHole, grid.Length0);
    if Apart(r) {
      forall a, b | SolidIn(grid, isHole, grid.Length0, a) && SolidIn(grid, isHole, grid.Length0, b) && a != b
        ensures !ShareCorner(a, b)
      {
        assert a in r && b in r;
        var k :| 0 <= k < |r| && r[k] == a;
        var l :| 0 <= l < |r| && r[l] == b;
        if k < l {
          assert !ShareCorner(r[k], r[l]);
        } else {
          assert !ShareCorner(r[l], r[k]);
        }
      }
    }
    if SolidApart(grid, isHole) {
      forall k, l | 0 <= k < l < |r| ensures !ShareCorner(r[k], r[l]) {
        assert SolidIn(grid, isHole, grid.Length0, r[k]) && SolidIn(grid, isHole, grid.Length0, r[l]);
        assert Before(r[k], r[l]);
      }
    }
  }

  /** A grid whose only solid cell is (x, y) walks exactly that cell. */
  lemma LoneSolidCell(grid: array2<real>, isHole: real -> bool, x: nat, y: nat)
    requires x < grid.Length0 && y < grid.Length1
    requires forall i, j :: 0 <= i < grid.Length0 && 0 <= j < grid.Length1 ==> (isHole(grid[i, j]) <==> (i, j) != (x, y))
    ensures SolidCells(grid, isHole) == [(x, y)]
  {
    var r := SolidCells(grid, isHole);
    SolidCellsSpec(grid, isHole);
    SolidCellsCount(grid, isHole);
    assert SolidSet(grid, isHole) == {(x, y)};
    assert (x, y) in r;
  }
}
