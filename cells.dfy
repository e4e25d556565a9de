/** The Verlet cell list of src/nb.c: a grid of nx * ny * nz cells stored
    in one flat array, each cell holding its atoms and the cells it is
    compared with. The grid size and the cell of each atom, which the
    source computes from the coordinates, are inputs here. */
module Cells {
  import opened Contacts

  /** A cell position on the grid; cell_index flattens it. */
  datatype Pos = Pos(x: int, y: int, z: int)

  /** The cell positions of a grid of nx * ny * nz cells. */
  predicate InGrid(nx: nat, ny: nat, nz: nat, p: Pos)
  {
    0 <= p.x < nx && 0 <= p.y < ny && 0 <= p.z < nz
  }

  /** cell_index (src/nb.c:82-88). */
  function CellIndex(nx: nat, ny: nat, p: Pos): int
  {
    p.x + nx * (p.y + ny * p.z)
  }

  /** The position of flat cell index c, the inverse of CellIndex. */
  function Decode(nx: nat, ny: nat, c: nat): Pos
    requires nx > 0 && ny > 0
  {
    Pos(c % nx, (c / nx) % ny, (c / nx) / ny)
  }

  lemma {:induction false} MulAtLeast(k: int, d: int)
    requires k >= 1 && d > 0
    ensures k * d >= d
  {
    if k > 1 {
      MulAtLeast(k - 1, d);
      assert k * d == (k - 1) * d + d;
    }
  }

  lemma MulGrows(d: int, q: int, q': int)
    requires d > 0 && q < q'
    ensures q * d + d <= q' * d
  {
    var k := q' - q;
    assert q' * d == q * d + k * d;
    MulAtLeast(k, d);
  }

  /** Euclidean division is unique: quotient and remainder are the only
      ones that rebuild a. */
  lemma DivModUnique(a: int, d: int, q: int, r: int)
    requires d > 0 && 0 <= r < d && a == q * d + r
    ensures a / d == q && a % d == r
  {
    var q', r' := a / d, a % d;
    assert a == q' * d + r' && 0 <= r' < d;
    if q' > q {
      MulGrows(d, q, q');
    } else if q' < q {
      MulGrows(d, q', q);
    }
  }

  /** cell_index maps the grid into 0 .. nx * ny * nz - 1. */
  lemma IndexBound(nx: nat, ny: nat, nz: nat, p: Pos)
    requires InGrid(nx, ny, nz, p)
    ensures 0 <= CellIndex(nx, ny, p) < nx * ny * nz
  {
    var m := p.y + ny * p.z;
    assert m < ny * nz by {
      assert ny * p.z + ny == ny * (p.z + 1);
      MulMono(ny, p.z + 1, nz);
    }
    assert CellIndex(nx, ny, p) < nx * (ny * nz) by {
      assert nx * m + nx == nx * (m + 1);
      MulMono(nx, m + 1, ny * nz);
    }
  }

  /** cell_index is one to one on the grid: Decode undoes it. */
  lemma IndexDecode(nx: nat, ny: nat, nz: nat, p: Pos)
    requires InGrid(nx, ny, nz, p)
    ensures Decode(nx, ny, CellIndex(nx, ny, p)) == p
  {
    var m := p.y + ny * p.z;
    DivModUnique(CellIndex(nx, ny, p), nx, m, p.x);
    DivModUnique(m, ny, p.z, p.y);
  }

  lemma MulMono(a: nat, b: nat, c: nat)
    requires b <= c
    ensures a * b <= a * c
  {
  }

  /** A quotient by d of a number below d * b is below b. */
  lemma DivBelow(a: nat, d: nat, b: nat)
    requires d > 0 && a < d * b
    ensures a / d < b
  {
    assert a == d * (a / d) + a % d;
    if a / d >= b {
      MulMono(d, b, a / d);
    }
  }

  /** Every flat index below nx * ny * nz is the index of the position it
      decodes to, and that position lies on the grid. */
  lemma DecodeIndex(nx: nat, ny: nat, nz: nat, c: nat)
    requires nx > 0 && ny > 0 && c < nx * ny * nz
    ensures InGrid(nx, ny, nz, Decode(nx, ny, c))
    ensures CellIndex(nx, ny, Decode(nx, ny, c)) == c
  {
    var m := c / nx;
    assert nx * ny * nz == nx * (ny * nz);
    DivBelow(c, nx, ny * nz);
    DivBelow(m, ny, nz);
    assert m % ny + ny * (m / ny) == m;
    assert c % nx + nx * m == c;
  }

  /** Distinct grid positions have distinct cell indices. */
  lemma IndexInjective(nx: nat, ny: nat, nz: nat, p: Pos, q: Pos)
    requires InGrid(nx, ny, nz, p) && InGrid(nx, ny, nz, q)
    ensures CellIndex(nx, ny, p) == CellIndex(nx, ny, q) ==> p == q
  {
    IndexDecode(nx, ny, nz, p);
    IndexDecode(nx, ny, nz, q);
  }

  /** Cell q is within one step of cell p along every axis. */
  predicate Near(p: Pos, q: Pos)
  {
    -1 <= q.x - p.x <= 1 && -1 <= q.y - p.y <= 1 && -1 <= q.z - p.z <= 1
  }

  /** The stencil test of src/nb.c:108: the offset from p to q has a
      non-negative component sum. */
  predicate Forward(p: Pos, q: Pos)
  {
    (q.x - p.x) + (q.y - p.y) + (q.z - p.z) >= 0
  }

  /** Cell p lists cell q: q is on the grid, next to p and forward of it. */
  predicate Listed(nx: nat, ny: nat, nz: nat, p: Pos, q: Pos)
  {
    InGrid(nx, ny, nz, q) && Near(p, q) && Forward(p, q)
  }

  /** The cells the innermost loop of fill_nb lists at x = i, y = j, for
      z from p.z - 1 up to k - 1, in loop order. */
  function ZRow(nx: nat, ny: nat, nz: nat, p: Pos, i: int, j: int, k: int): seq<int>
    decreases k - p.z
  {
    if k <= p.z - 1 then []
    else
      var q := Pos(i, j, k - 1);
      ZRow(nx, ny, nz, p, i, j, k - 1) +
        (if InGrid(nx, ny, nz, q) && Forward(p, q) then [CellIndex(nx, ny, q)] else [])
  }

  /** The cells fill_nb lists at x = i, for y from p.y - 1 up to j - 1. */
  function YRows(nx: nat, ny: nat, nz: nat, p: Pos, i: int, j: int): seq<int>
    decreases j - p.y
  {
    if j <= p.y - 1 then []
    else YRows(nx, ny, nz, p, i, j - 1) + ZRow(nx, ny, nz, p, i, j - 1, p.z + 2)
  }

  /** The cells fill_nb lists for x from p.x - 1 up to i - 1. */
  function XRows(nx: nat, ny: nat, nz: nat, p: Pos, i: int): seq<int>
    decreases i - p.x
  {
    if i <= p.x - 1 then []
    else XRows(nx, ny, nz, p, i - 1) + YRows(nx, ny, nz, p, i - 1, p.y + 2)
  }

  /** The neighbour list fill_nb gives cell p: the 3 x 3 x 3 block around
      p scanned x-major, keeping the cells on the grid that are forward of p. */
  function Stencil(nx: nat, ny: nat, nz: nat, p: Pos): seq<int>
  {
    XRows(nx, ny, nz, p, p.x + 2)
  }

  /** Rows off the grid contribute nothing: this is why the clamped loops
      of fill_nb build the same list as the full block. */
  lemma {:induction false} ZRowOff(nx: nat, ny: nat, nz: nat, p: Pos, i: int, j: int, k: int)
    requires !(0 <= i < nx && 0 <= j < ny)
    ensures ZRow(nx, ny, nz, p, i, j, k) == []
    decreases k - p.z
  {
    if k > p.z - 1 {
      ZRowOff(nx, ny, nz, p, i, j, k - 1);
    }
  }

  lemma {:induction false} YRowsOff(nx: nat, ny: nat, nz: nat, p: Pos, i: int, j: int)
    requires !(0 <= i < nx)
    ensures YRows(nx, ny, nz, p, i, j) == []
    decreases j - p.y
  {
    if j > p.y - 1 {
      YRowsOff(nx, ny, nz, p, i, j - 1);
      ZRowOff(nx, ny, nz, p, i, j - 1, p.z + 2);
    }
  }

  /** A cell in row (i, j) below height k that passes the test is listed. */
  lemma {:induction false} ZRowHas(nx: nat, ny: nat, nz: nat, p: Pos, i: int, j: int, k: int, q: Pos)
    requires q.x == i && q.y == j && p.z - 1 <= q.z < k
    requires InGrid(nx, ny, nz, q) && Forward(p, q)
    ensures CellIndex(nx, ny, q) in ZRow(nx, ny, nz, p, i, j, k)
    decreases k - p.z
  {
    if q.z < k - 1 {
      ZRowHas(nx, ny, nz, p, i, j, k - 1, q);
    }
  }

  lemma {:induction false} YRowsHas(nx: nat, ny: nat, nz: nat, p: Pos, i: int, j: int, q: Pos)
    requires q.x == i && p.y - 1 <= q.y < j && p.z - 1 <= q.z <= p.z + 1
    requires InGrid(nx, ny, nz, q) && Forward(p, q)
    ensures CellIndex(nx, ny, q) in YRows(nx, ny, nz, p, i, j)
    decreases j - p.y
  {
    if q.y < j - 1 {
      YRowsHas(nx, ny, nz, p, i, j - 1, q);
    } else {
      ZRowHas(nx, ny, nz, p, i, j - 1, p.z + 2, q);
    }
  }

  lemma {:induction false} XRowsHas(nx: nat, ny: nat, nz: nat, p: Pos, i: int, q: Pos)
    requires p.x - 1 <= q.x < i && Near(p, q)
    requires InGrid(nx, ny, nz, q) && Forward(p, q)
    ensures CellIndex(nx, ny, q) in XRows(nx, ny, nz, p, i)
    decreases i - p.x
  {
    if q.x < i - 1 {
      XRowsHas(nx, ny, nz, p, i - 1, q);
    } else {
      YRowsHas(nx, ny, nz, p, i - 1, p.y + 2, q);
    }
  }

  /** Every entry of a row is the index of a listed cell. */
  lemma {:induction false} ZRowOnly(nx: nat, ny: nat, nz: nat, p: Pos, i: int, j: int, k: int)
    requires -1 <= i - p.x <= 1 && -1 <= j - p.y <= 1 && k <= p.z + 2
    ensures forall e :: e in ZRow(nx, ny, nz, p, i, j, k) ==>
      0 <= e < nx * ny * nz && Listed(nx, ny, nz, p, Decode(nx, ny, e))
    decreases k - p.z
  {
    if k > p.z - 1 {
      ZRowOnly(nx, ny, nz, p, i, j, k - 1);
      var q := Pos(i, j, k - 1);
      if InGrid(nx, ny, nz, q) && Forward(p, q) {
        IndexBound(nx, ny, nz, q);
        IndexDecode(nx, ny, nz, q);
      }
    }
  }

  lemma {:induction false} YRowsOnly(nx: nat, ny: nat, nz: nat, p: Pos, i: int, j: int)
    requires -1 <= i - p.x <= 1 && j <= p.y + 2
    ensures forall e :: e in YRows(nx, ny, nz, p, i, j) ==>
      0 <= e < nx * ny * nz && Listed(nx, ny, nz, p, Decode(nx, ny, e))
    decreases j - p.y
  {
    if j > p.y - 1 {
      YRowsOnly(nx, ny, nz, p, i, j - 1);
      ZRowOnly(nx, ny, nz, p, i, j - 1, p.z + 2);
    }
  }

  lemma {:induction false} XRowsOnly(nx: nat, ny: nat, nz: nat, p: Pos, i: int)
    requires i <= p.x + 2
    ensures forall e :: e in XRows(nx, ny, nz, p, i) ==>
      0 <= e < nx * ny * nz && Listed(nx, ny, nz, p, Decode(nx, ny, e))
    decreases i - p.x
  {
    if i > p.x - 1 {
      XRowsOnly(nx, ny, nz, p, i - 1);
      YRowsOnly(nx, ny, nz, p, i - 1, p.y + 2);
    }
  }

  /** Cell p lists exactly the cells next to it on the grid whose offset
      from p passes the forward test; every entry is a valid flat index
      (src/nb.c:96-111). */
  lemma StencilMembers(nx: nat, ny: nat, nz: nat, p: Pos, q: Pos)
    requires InGrid(nx, ny, nz, p) && InGrid(nx, ny, nz, q)
    ensures CellIndex(nx, ny, q) in Stencil(nx, ny, nz, p) <==> Near(p, q) && Forward(p, q)
    ensures forall e :: e in Stencil(nx, ny, nz, p) ==>
      0 <= e < nx * ny * nz && Listed(nx, ny, nz, p, Decode(nx, ny, e))
  {
    XRowsOnly(nx, ny, nz, p, p.x + 2);
    IndexDecode(nx, ny, nz, q);
    if Near(p, q) && Forward(p, q) {
      XRowsHas(nx, ny, nz, p, p.x + 2, q);
    }
  }

  /** How many of the offsets -1, 0, 1 along z pass the forward test when
      the x and y offsets sum to s. */
  function ZCap(s: int): nat
  {
    if s >= 1 then 3 else if s == 0 then 2 else if s == -1 then 1 else 0
  }

  lemma ZRowLength(nx: nat, ny: nat, nz: nat, p: Pos, i: int, j: int)
    ensures |ZRow(nx, ny, nz, p, i, j, p.z + 2)| <= ZCap((i - p.x) + (j - p.y))
  {
    var s := (i - p.x) + (j - p.y);
    assert |ZRow(nx, ny, nz, p, i, j, p.z)| <= (if s >= 1 then 1 else 0);
    assert |ZRow(nx, ny, nz, p, i, j, p.z + 1)| <= (if s >= 1 then 2 else if s == 0 then 1 else 0);
  }

  lemma YRowsLength(nx: nat, ny: nat, nz: nat, p: Pos, i: int)
    ensures |YRows(nx, ny, nz, p, i, p.y + 2)| <= ZCap(i - p.x - 1) + ZCap(i - p.x) + ZCap(i - p.x + 1)
  {
    ZRowLength(nx, ny, nz, p, i, p.y - 1);
    ZRowLength(nx, ny, nz, p, i, p.y);
    ZRowLength(nx, ny, nz, p, i, p.y + 1);
    assert YRows(nx, ny, nz, p, i, p.y) == ZRow(nx, ny, nz, p, i, p.y - 1, p.z + 2);
  }

  lemma XRowsLength(nx: nat, ny: nat, nz: nat, p: Pos)
    ensures |Stencil(nx, ny, nz, p)| <= 17
  {
    YRowsLength(nx, ny, nz, p, p.x - 1);
    YRowsLength(nx, ny, nz, p, p.x);
    YRowsLength(nx, ny, nz, p, p.x + 1);
    var a := YRows(nx, ny, nz, p, p.x - 1, p.y + 2);
    var b := YRows(nx, ny, nz, p, p.x, p.y + 2);
    var c := YRows(nx, ny, nz, p, p.x + 1, p.y + 2);
    assert XRows(nx, ny, nz, p, p.x) == a;
    assert XRows(nx, ny, nz, p, p.x + 1) == a + b;
    assert |Stencil(nx, ny, nz, p)| == |a + b| + |c|;
  }

  /** fill_nb lists at least the cell itself and at most 17 cells, the
      size of the neighbour array of a cell (src/nb.c:32, src/nb.c:116). */
  lemma StencilLength(nx: nat, ny: nat, nz: nat, p: Pos)
    requires InGrid(nx, ny, nz, p)
    ensures 1 <= |Stencil(nx, ny, nz, p)| <= 17
    ensures CellIndex(nx, ny, p) in Stencil(nx, ny, nz, p)
  {
    XRowsLength(nx, ny, nz, p);
    StencilMembers(nx, ny, nz, p, p);
  }

  /** Coverage: of two cells next to each other, at least one lists the
      other, so every pair of neighbouring cells is compared (src/nb.c:108). */
  lemma Coverage(nx: nat, ny: nat, nz: nat, p: Pos, q: Pos)
    requires InGrid(nx, ny, nz, p) && InGrid(nx, ny, nz, q) && Near(p, q)
    ensures CellIndex(nx, ny, q) in Stencil(nx, ny, nz, p) || CellIndex(nx, ny, p) in Stencil(nx, ny, nz, q)
  {
    StencilMembers(nx, ny, nz, p, q);
    StencilMembers(nx, ny, nz, q, p);
  }

  /** The forward test does not make the stencil a half stencil: two cells
      whose offset sums to zero list each other, here cells (1, 0, 0) and
      (0, 1, 0) of a 2 x 2 x 1 grid. */
  lemma ListedBothWays()
    ensures CellIndex(2, 2, Pos(0, 1, 0)) in Stencil(2, 2, 1, Pos(1, 0, 0))
    ensures CellIndex(2, 2, Pos(1, 0, 0)) in Stencil(2, 2, 1, Pos(0, 1, 0))
  {
    StencilMembers(2, 2, 1, Pos(1, 0, 0), Pos(0, 1, 0));
    StencilMembers(2, 2, 1, Pos(0, 1, 0), Pos(1, 0, 0));
  }

  /** Position q comes before (ix, iy, iz) in the x-major order of get_nb. */
  predicate Before(q: Pos, ix: int, iy: int, iz: int)
  {
    q.x < ix || (q.x == ix && (q.y < iy || (q.y == iy && q.z < iz)))
  }

  /** The atoms below k that the cell assignment place puts in cell c, in
      increasing order: the atom list fill_cells builds for c. */
  function AtomsIn(nx: nat, ny: nat, place: seq<Pos>, c: int, k: nat): seq<nat>
    requires k <= |place|
  {
    if k == 0 then []
    else AtomsIn(nx, ny, place, c, k - 1) + (if CellIndex(nx, ny, place[k - 1]) == c then [k - 1] else [])
  }

  /** A cell holds exactly the atoms assigned to it, in increasing order. */
  lemma {:induction false} AtomsInShape(nx: nat, ny: nat, place: seq<Pos>, c: int, k: nat)
    requires k <= |place|
    ensures forall a: nat :: a in AtomsIn(nx, ny, place, c, k) <==> a < k && CellIndex(nx, ny, place[a]) == c
    ensures Increasing(AtomsIn(nx, ny, place, c, k))
    ensures forall e :: 0 <= e < |AtomsIn(nx, ny, place, c, k)| ==> AtomsIn(nx, ny, place, c, k)[e] < k
  {
    if k > 0 {
      AtomsInShape(nx, ny, place, c, k - 1);
    }
  }

  /** The total of the atom counts of cells 0 .. m - 1. */
  function CountSum(nx: nat, ny: nat, place: seq<Pos>, k: nat, m: nat): nat
    requires k <= |place|
  {
    if m == 0 then 0 else CountSum(nx, ny, place, k, m - 1) + |AtomsIn(nx, ny, place, m - 1, k)|
  }

  lemma {:induction false} CountSumStep(nx: nat, ny: nat, place: seq<Pos>, k: nat, m: nat)
    requires k < |place|
    ensures CountSum(nx, ny, place, k + 1, m) ==
      CountSum(nx, ny, place, k, m) + (if 0 <= CellIndex(nx, ny, place[k]) < m then 1 else 0)
  {
    if m > 0 {
      CountSumStep(nx, ny, place, k, m - 1);
    }
  }

  lemma {:induction false} CountSumEmpty(nx: nat, ny: nat, place: seq<Pos>, m: nat)
    ensures CountSum(nx, ny, place, 0, m) == 0
  {
    if m > 0 {
      CountSumEmpty(nx, ny, place, m - 1);
    }
  }

  /** Every atom is counted in exactly one cell: the atom counts of all
      cells add up to the number of atoms (src/nb.c:147-156). */
  lemma {:induction false} CountsAddUp(nx: nat, ny: nat, nz: nat, place: seq<Pos>, k: nat)
    requires k <= |place| && forall a :: 0 <= a < |place| ==> InGrid(nx, ny, nz, place[a])
    ensures CountSum(nx, ny, place, k, nx * ny * nz) == k
  {
    if k > 0 {
      CountsAddUp(nx, ny, nz, place, k - 1);
      CountSumStep(nx, ny, place, k - 1, nx * ny * nz);
      IndexBound(nx, ny, nz, place[k - 1]);
      assert 0 <= CellIndex(nx, ny, place[k - 1]) < nx * ny * nz;
    } else {
      CountSumEmpty(nx, ny, place, nx * ny * nz);
    }
  }

  /** What cell_list_bounds and coord2cell_index work out from the
      coordinates: the grid size and the cell position of every atom. */
  datatype Grid = Grid(nx: nat, ny: nat, nz: nat, place: seq<Pos>)

  /** A grid for count atoms: at least one cell along every axis, and
      every atom placed on the grid. */
  predicate GridOk(g: Grid, count: nat)
  {
    g.nx > 0 && g.ny > 0 && g.nz > 0 && |g.place| == count &&
    forall a :: 0 <= a < count ==> InGrid(g.nx, g.ny, g.nz, g.place[a])
  }

  /** The cells before (ix, iy, iz) in the order of get_nb have their
      neighbour lists in s. */
  ghost predicate FilledBefore(nx: nat, ny: nat, nz: nat, s: seq<seq<int>>, ix: int, iy: int, iz: int)
    requires nx > 0 && ny > 0
  {
    |s| == nx * ny * nz &&
    forall c :: 0 <= c < |s| && Before(Decode(nx, ny, c), ix, iy, iz) ==> s[c] == Stencil(nx, ny, nz, Decode(nx, ny, c))
  }

  /** The cell lists s with the list of cell p set to its stencil. */
  function SetStencil(nx: nat, ny: nat, nz: nat, s: seq<seq<int>>, p: Pos): seq<seq<int>>
    requires |s| == nx * ny * nz && InGrid(nx, ny, nz, p)
  {
    IndexBound(nx, ny, nz, p);
    s[CellIndex(nx, ny, p) := Stencil(nx, ny, nz, p)]
  }

  /** Writing the list of the next cell extends the filled prefix. */
  lemma KeepOthers(nx: nat, ny: nat, nz: nat, s: seq<seq<int>>, p: Pos)
    requires InGrid(nx, ny, nz, p) && FilledBefore(nx, ny, nz, s, p.x, p.y, p.z)
    ensures FilledBefore(nx, ny, nz, SetStencil(nx, ny, nz, s, p), p.x, p.y, p.z + 1)
  {
    IndexBound(nx, ny, nz, p);
    IndexDecode(nx, ny, nz, p);
    var t := SetStencil(nx, ny, nz, s, p);
    var cp := CellIndex(nx, ny, p);
    assert t == s[cp := Stencil(nx, ny, nz, p)];
    forall c | 0 <= c < |t| && Before(Decode(nx, ny, c), p.x, p.y, p.z + 1)
      ensures t[c] == Stencil(nx, ny, nz, Decode(nx, ny, c))
    {
      if c != cp {
        assert Decode(nx, ny, c) != p;
        assert Before(Decode(nx, ny, c), p.x, p.y, p.z);
      }
    }
  }

  /** The innermost loop of fill_nb (src/nb.c:104-112): the cells of
      column (i, j) within one step of p along z, clamped to the grid,
      that pass the forward test. */
  method ScanColumn(nx: nat, ny: nat, nz: nat, p: Pos, i: int, j: int) returns (row: seq<int>)
    requires InGrid(nx, ny, nz, p) && 0 <= i < nx && 0 <= j < ny
    ensures row == ZRow(nx, ny, nz, p, i, j, p.z + 2)
  {
    var zmin := if p.z > 0 then p.z - 1 else 0;
    var zmax := if p.z < nz - 1 then p.z + 1 else p.z;
    row := [];
    var k := zmin;
    while k <= zmax
      invariant zmin <= k <= zmax + 1
      invariant row == ZRow(nx, ny, nz, p, i, j, k)
    {
      if i - p.x + j - p.y + k - p.z >= 0 {
        row := row + [CellIndex(nx, ny, Pos(i, j, k))];
      }
      k := k + 1;
    }
    assert ZRow(nx, ny, nz, p, i, j, k) == ZRow(nx, ny, nz, p, i, j, p.z + 2);
  }

  /** The middle loop of fill_nb (src/nb.c:103-113): the columns of
      plane x = i within one step of p along y, clamped to the grid. */
  method ScanPlane(nx: nat, ny: nat, nz: nat, p: Pos, i: int) returns (plane: seq<int>)
    requires InGrid(nx, ny, nz, p) && 0 <= i < nx
    ensures plane == YRows(nx, ny, nz, p, i, p.y + 2)
  {
    var ymin := if p.y > 0 then p.y - 1 else 0;
    var ymax := if p.y < ny - 1 then p.y + 1 else p.y;
    plane := [];
    if p.y == 0 {
      ZRowOff(nx, ny, nz, p, i, p.y - 1, p.z + 2);
    }
    var j := ymin;
    while j <= ymax
      invariant ymin <= j <= ymax + 1
      invariant plane == YRows(nx, ny, nz, p, i, j)
    {
      var row := ScanColumn(nx, ny, nz, p, i, j);
      plane := plane + row;
      j := j + 1;
    }
    if p.y == ny - 1 {
      ZRowOff(nx, ny, nz, p, i, p.y + 1, p.z + 2);
    }
    assert YRows(nx, ny, nz, p, i, j) == YRows(nx, ny, nz, p, i, p.y + 2);
  }

  /** The loops of fill_nb (src/nb.c:96-114): the block of cells within
      one step of p, clamped to the grid, scanned x-major, keeping the
      cells that pass the forward test. */
  method ScanBlock(nx: nat, ny: nat, nz: nat, p: Pos) returns (list: seq<int>)
    requires InGrid(nx, ny, nz, p)
    ensures list == Stencil(nx, ny, nz, p)
  {
    var xmin := if p.x > 0 then p.x - 1 else 0;
    var xmax := if p.x < nx - 1 then p.x + 1 else p.x;
    list := [];
    if p.x == 0 {
      YRowsOff(nx, ny, nz, p, p.x - 1, p.y + 2);
    }
    var i := xmin;
    while i <= xmax
      invariant xmin <= i <= xmax + 1
      invariant list == XRows(nx, ny, nz, p, i)
    {
      var plane := ScanPlane(nx, ny, nz, p, i);
      list := list + plane;
      i := i + 1;
    }
    if p.x == nx - 1 {
      YRowsOff(nx, ny, nz, p, p.x + 1, p.y + 2);
    }
    assert list == XRows(nx, ny, nz, p, p.x + 2);
  }

  /** The Verlet cell list (struct cell_list): nx * ny * nz cells, each
      with its forward neighbour cells and its atoms. */
  class CellList {
    const nx: nat
    const ny: nat
    const nz: nat
    const n: nat
    const nb: array<seq<int>>
    const atom: array<seq<nat>>

    ghost predicate Valid()
      reads this
    {
      nx > 0 && ny > 0 && nz > 0 && n == nx * ny * nz && nb.Length == n && atom.Length == n
    }

    /** fill_nb (src/nb.c:91-117): stores the stencil of cell p as its
        neighbour list; the lists of all other cells stay as they are. */
    method FillNb(p: Pos)
      requires Valid() && InGrid(nx, ny, nz, p)
      modifies nb
      ensures nb[..] == SetStencil(nx, ny, nz, old(nb[..]), p)
    {
      var list := ScanBlock(nx, ny, nz, p);
      IndexBound(nx, ny, nz, p);
      nb[CellIndex(nx, ny, p)] := list;
      assert nb[..] == old(nb[..])[CellIndex(nx, ny, p) := list];
    }

    /** get_nb (src/nb.c:120-129): fills the neighbour list of every cell. */
    method GetNb()
      requires Valid()
      modifies nb
      ensures forall c :: 0 <= c < n ==> nb[c] == Stencil(nx, ny, nz, Decode(nx, ny, c))
    {
      for ix := 0 to nx
        invariant FilledBefore(nx, ny, nz, nb[..], ix, 0, 0)
      {
        for iy := 0 to ny
          invariant FilledBefore(nx, ny, nz, nb[..], ix, iy, 0)
        {
          for iz := 0 to nz
            invariant FilledBefore(nx, ny, nz, nb[..], ix, iy, iz)
          {
            KeepOthers(nx, ny, nz, nb[..], Pos(ix, iy, iz));
            FillNb(Pos(ix, iy, iz));
          }
          forall c | 0 <= c < n
            ensures Before(Decode(nx, ny, c), ix, iy, nz) == Before(Decode(nx, ny, c), ix, iy + 1, 0)
          {
            DecodeIndex(nx, ny, nz, c);
          }
        }
        forall c | 0 <= c < n
          ensures Before(Decode(nx, ny, c), ix, ny, 0) == Before(Decode(nx, ny, c), ix + 1, 0, 0)
        {
          DecodeIndex(nx, ny, nz, c);
        }
      }
      forall c | 0 <= c < n
        ensures Before(Decode(nx, ny, c), nx, 0, 0)
      {
        DecodeIndex(nx, ny, nz, c);
      }
    }

    /** fill_cells (src/nb.c:140-157): empties every cell, then appends
        each atom, in order, to the cell it is assigned to. */
    method FillCells(place: seq<Pos>)
      requires Valid() && forall a :: 0 <= a < |place| ==> InGrid(nx, ny, nz, place[a])
      modifies atom
      ensures forall c :: 0 <= c < n ==> atom[c] == AtomsIn(nx, ny, place, c, |place|)
    {
      for c := 0 to n
        invariant forall c' :: 0 <= c' < c ==> atom[c'] == []
      {
        atom[c] := [];
      }
      for a := 0 to |place|
        invariant forall c :: 0 <= c < n ==> atom[c] == AtomsIn(nx, ny, place, c, a)
      {
        IndexBound(nx, ny, nz, place[a]);
        var c := CellIndex(nx, ny, place[a]);
        atom[c] := atom[c] + [a];
      }
    }

    /** cell_list_new (src/nb.c:176-191) on a grid whose size and atom
        assignment are given: fills the cells, then their neighbour lists. */
    constructor (nx: nat, ny: nat, nz: nat, place: seq<Pos>)
      requires nx > 0 && ny > 0 && nz > 0
      requires forall a :: 0 <= a < |place| ==> InGrid(nx, ny, nz, place[a])
      ensures Valid() && this.nx == nx && this.ny == ny && this.nz == nz && fresh(nb) && fresh(atom)
      ensures forall c :: 0 <= c < n ==>
        nb[c] == Stencil(nx, ny, nz, Decode(nx, ny, c)) && atom[c] == AtomsIn(nx, ny, place, c, |place|)
    {
      this.nx, this.ny, this.nz := nx, ny, nz;
      n := nx * ny * nz;
      nb := new seq<int>[nx * ny * nz](_ => []);
      atom := new seq<nat>[nx * ny * nz](_ => []);
      new;
      FillCells(place);
      GetNb();
    }
  }
}
