/** What the neighbour table of src/nb.c holds once freesasa_nb_new has
    filled it: exactly the contacts of the atoms, each with its offsets and
    planar distance, listed in both directions. */
module NeighbourFacts {
  import opened Geometry
  import opened Contacts
  import opened Cells
  import opened Neighbours

  /** Entry e of the list of atom i names a contact of i, with the x and y
      offsets from i to it and the planar distance of those offsets. */
  predicate EntryOk(m: Libm, xyz: seq<Coord>, radii: seq<real>, i: nat, e: Entry)
    requires i < |xyz| && |radii| == |xyz|
  {
    e.atom < |xyz| && Touch(xyz, radii, i, e.atom) &&
    e.xd == xyz[e.atom].x - xyz[i].x && e.yd == xyz[e.atom].y - xyz[i].y &&
    e.xyd == PlanarDistance(m, e.xd, e.yd)
  }

  /** Every entry of table t is right for its atom. */
  ghost predicate Entries(m: Libm, xyz: seq<Coord>, radii: seq<real>, t: seq<seq<Entry>>)
    requires |radii| == |xyz|
  {
    |t| == |xyz| &&
    forall i, k :: 0 <= i < |t| && 0 <= k < |t[i]| ==> EntryOk(m, xyz, radii, i, t[i][k])
  }

  /** Recording a contact keeps every entry right. */
  lemma RecordEntries(m: Libm, xyz: seq<Coord>, radii: seq<real>, t: seq<seq<Entry>>, l: Link)
    requires |radii| == |xyz| && Entries(m, xyz, radii, t) && Found(xyz, radii, l)
    ensures Entries(m, xyz, radii, Record(m, t, l))
  {
    var u := Record(m, t, l);
    assert Fits(|t|, l);
    TouchSymmetric(xyz, radii, l.i, l.j);
    assert Sq(-l.dx) == Sq(l.dx) && Sq(-l.dy) == Sq(l.dy);
    forall i, k | 0 <= i < |u| && 0 <= k < |u[i]|
      ensures EntryOk(m, xyz, radii, i, u[i][k])
    {
      if i == l.i && k == |t[i]| {
        assert u[i][k] == Entry(l.j, PlanarDistance(m, l.dx, l.dy), l.dx, l.dy);
      } else if i == l.j && k == |t[i]| {
        assert u[i][k] == Entry(l.i, PlanarDistance(m, l.dx, l.dy), -l.dx, -l.dy);
      } else {
        assert u[i][k] == t[i][k];
      }
    }
  }

  /** A table built from the empty one by recording contacts has only
      right entries. */
  lemma {:induction false} RecordAllEntries(m: Libm, xyz: seq<Coord>, radii: seq<real>, log: seq<Link>)
    requires |radii| == |xyz| && AllFound(xyz, radii, log)
    ensures Entries(m, xyz, radii, RecordAll(m, Empty(|xyz|), log))
  {
    if log != [] {
      var init := log[..|log| - 1];
      assert forall k :: 0 <= k < |init| ==> init[k] == log[k];
      RecordAllEntries(m, xyz, radii, init);
      RecordEntries(m, xyz, radii, RecordAll(m, Empty(|xyz|), init), log[|log| - 1]);
    }
  }

  /** Every entry of the table freesasa_nb_new builds names a contact of
      its atom (src/nb.c:330-337), with the offsets from the atom to the
      contact and their planar distance (src/nb.c:282-298). */
  lemma TableSound(m: Libm, xyz: seq<Coord>, radii: seq<real>, g: Grid)
    requires |radii| == |xyz| && GridOk(g, |xyz|)
    ensures Entries(m, xyz, radii, Table(m, xyz, radii, g))
  {
    GridCellsOk(g, |xyz|);
    FillLinksFound(xyz, radii, GridNb(g), GridAtoms(g), g.nx * g.ny * g.nz);
    RecordAllEntries(m, xyz, radii, FillLinks(xyz, radii, GridNb(g), GridAtoms(g), g.nx * g.ny * g.nz));
  }

  /** The table lists only contacts. */
  lemma TableOnlyContacts(m: Libm, xyz: seq<Coord>, radii: seq<real>, g: Grid, i: nat, j: nat)
    requires |radii| == |xyz| && GridOk(g, |xyz|) && i < |xyz|
    requires j in Atoms(Table(m, xyz, radii, g)[i])
    ensures j < |xyz| && Touch(xyz, radii, i, j)
  {
    TableSound(m, xyz, radii, g);
    var row := Table(m, xyz, radii, g)[i];
    var k :| 0 <= k < |row| && Atoms(row)[k] == j;
    assert EntryOk(m, xyz, radii, i, row[k]);
  }

  /** The table is symmetric: every entry has its mirror in the list of
      the atom it names, so j is listed for i exactly when i is listed for
      j, and no atom is listed for itself. */
  lemma TableSymmetric(m: Libm, xyz: seq<Coord>, radii: seq<real>, g: Grid, i: nat, j: nat)
    requires |radii| == |xyz| && GridOk(g, |xyz|) && i < |xyz| && j < |xyz|
    ensures Symmetric(Table(m, xyz, radii, g))
    ensures j in Atoms(Table(m, xyz, radii, g)[i]) <==> i in Atoms(Table(m, xyz, radii, g)[j])
    ensures i !in Atoms(Table(m, xyz, radii, g)[i])
  {
    GridCellsOk(g, |xyz|);
    RecordAllSymmetric(m, |xyz|, FillLinks(xyz, radii, GridNb(g), GridAtoms(g), g.nx * g.ny * g.nz));
    SymmetricContacts(Table(m, xyz, radii, g), i, j);
  }

  /** Touching atoms lie in the same or adjacent cells. Cells at least as
      wide as the largest diameter give this in exact arithmetic; it is the
      property the choice of cell size in freesasa_nb_new serves. */
  predicate Separated(xyz: seq<Coord>, radii: seq<real>, g: Grid)
    requires |radii| == |xyz| && |g.place| == |xyz|
  {
    forall a, b :: 0 <= a < |xyz| && 0 <= b < |xyz| && Touch(xyz, radii, a, b) ==>
      Near(g.place[a], g.place[b])
  }

  /** The link the cell pair (c, d) yields for atoms a of c and b of d,
      when the cells can be compared and the pair passes the pair test,
      is one nb_fill_list records when d is a neighbour of c. */
  lemma PairRecorded(xyz: seq<Coord>, radii: seq<real>, nbs: seq<seq<int>>, atoms: seq<seq<nat>>,
                     c: nat, q: nat, p: nat, y: nat)
    requires |radii| == |xyz| && CellsOk(|xyz|, nbs, atoms) && c < |nbs| && q < |nbs[c]|
    requires p < |atoms[c]| && 0 <= nbs[c][q] < |atoms| && y < |atoms[nbs[c][q]]|
    requires c == nbs[c][q] ==> p < y
    requires PairTest(xyz[atoms[c][p]], radii[atoms[c][p]], xyz[atoms[nbs[c][q]][y]], radii[atoms[nbs[c][q]][y]])
    ensures atoms[c][p] < |xyz| && atoms[nbs[c][q]][y] < |xyz|
    ensures LinkOf(xyz, atoms[c][p], atoms[nbs[c][q]][y]) in FillLinks(xyz, radii, nbs, atoms, |nbs|)
  {
    var d := nbs[c][q];
    var A, B := atoms[c], atoms[d];
    assert Pairable(|xyz|, A, B, c == d);
    var l := LinkOf(xyz, A[p], B[y]);
    AtomLinksHas(xyz, radii, A, B, c == d, p, y);
    CellLinksHas(xyz, radii, A, B, c == d, |A|, p, l);
    assert l in PairLinks(xyz, radii, nbs, atoms, c, d);
    NbLinksHas(xyz, radii, nbs, atoms, c, |nbs[c]|, q, l);
    FillLinksHas(xyz, radii, nbs, atoms, |nbs|, c, l);
  }

  /** Where the cell of b is a neighbour of the cell of a, a touching pair
      a, b lands in both lists. */
  lemma CompleteDirected(m: Libm, xyz: seq<Coord>, radii: seq<real>, g: Grid, a: nat, b: nat)
    requires |radii| == |xyz| && GridOk(g, |xyz|) && a < |xyz| && b < |xyz| && Touch(xyz, radii, a, b)
    requires CellIndex(g.nx, g.ny, g.place[b]) in Stencil(g.nx, g.ny, g.nz, g.place[a])
    ensures b in Atoms(Table(m, xyz, radii, g)[a]) && a in Atoms(Table(m, xyz, radii, g)[b])
  {
    var n := |xyz|;
    var nbs, atoms := GridNb(g), GridAtoms(g);
    GridCellsOk(g, n);
    var c, d := CellIndex(g.nx, g.ny, g.place[a]), CellIndex(g.nx, g.ny, g.place[b]);
    assert InGrid(g.nx, g.ny, g.nz, g.place[a]) && InGrid(g.nx, g.ny, g.nz, g.place[b]);
    IndexBound(g.nx, g.ny, g.nz, g.place[a]);
    IndexBound(g.nx, g.ny, g.nz, g.place[b]);
    IndexDecode(g.nx, g.ny, g.nz, g.place[a]);
    assert nbs[c] == Stencil(g.nx, g.ny, g.nz, g.place[a]);
    var q :| 0 <= q < |nbs[c]| && nbs[c][q] == d;
    AtomsInShape(g.nx, g.ny, g.place, c, n);
    AtomsInShape(g.nx, g.ny, g.place, d, n);
    assert atoms[c] == CellAtoms(g, c) && atoms[d] == CellAtoms(g, d);
    var p :| 0 <= p < |atoms[c]| && atoms[c][p] == a;
    var y :| 0 <= y < |atoms[d]| && atoms[d][y] == b;
    var log := FillLinks(xyz, radii, nbs, atoms, |nbs|);
    var l: Link;
    if c == d && y < p {
      TouchSymmetric(xyz, radii, a, b);
      assert d == nbs[d][q] && atoms[d][p] == a && atoms[c][y] == b;
      PairRecorded(xyz, radii, nbs, atoms, d, q, y, p);
      l := LinkOf(xyz, b, a);
    } else {
      assert c == d ==> p != y;
      PairRecorded(xyz, radii, nbs, atoms, c, q, p, y);
      l := LinkOf(xyz, a, b);
    }
    assert l in log && Fits(n, l);
    RecordAllHas(m, Empty(n), log, l);
  }

  /** With touching atoms in neighbouring cells, every contact is listed
      for both atoms: the forward stencil of get_nb reaches every pair of
      neighbouring cells in one direction or the other. */
  lemma TableComplete(m: Libm, xyz: seq<Coord>, radii: seq<real>, g: Grid, i: nat, j: nat)
    requires |radii| == |xyz| && GridOk(g, |xyz|) && Separated(xyz, radii, g)
    requires i < |xyz| && j < |xyz| && Touch(xyz, radii, i, j)
    ensures j in Atoms(Table(m, xyz, radii, g)[i]) && i in Atoms(Table(m, xyz, radii, g)[j])
  {
    var p, q := g.place[i], g.place[j];
    assert InGrid(g.nx, g.ny, g.nz, p) && InGrid(g.nx, g.ny, g.nz, q);
    Coverage(g.nx, g.ny, g.nz, p, q);
    if CellIndex(g.nx, g.ny, q) in Stencil(g.nx, g.ny, g.nz, p) {
      CompleteDirected(m, xyz, radii, g, i, j);
    } else {
      TouchSymmetric(xyz, radii, i, j);
      CompleteDirected(m, xyz, radii, g, j, i);
    }
  }

  /** With touching atoms in neighbouring cells the table and the
      brute-force search of sasa_get_contacts (src/sasa_lr.c:412-441)
      agree on who is in contact with whom. */
  lemma TableAgrees(m: Libm, xyz: seq<Coord>, radii: seq<real>, g: Grid, i: nat, j: nat)
    requires |radii| == |xyz| && GridOk(g, |xyz|) && Separated(xyz, radii, g) && i < |xyz|
    ensures j in Atoms(Table(m, xyz, radii, g)[i]) <==> j in Contacts.Neighbours(xyz, radii, i)
  {
    UptoMembers(xyz, radii, i, |xyz|, j);
    if j in Atoms(Table(m, xyz, radii, g)[i]) {
      TableOnlyContacts(m, xyz, radii, g, i, j);
    }
    if j in Contacts.Neighbours(xyz, radii, i) {
      TableComplete(m, xyz, radii, g, i, j);
    }
  }
}
