/** The neighbour table of src/nb.c (struct freesasa_nb): for every atom a
    growable list of its contacts, each with the planar distance and the
    x and y offsets to the contact, built from the cell list. */
module Neighbours {
  import opened Geometry
  import opened Contacts
  import opened Cells

  /** The growth step of the per-atom buffers. */
  const NB_CHUNK: nat := 32

  /** One entry of an atom's list: the contact, the planar distance to it
      (nb_xyd) and its x and y offsets (nb_xd, nb_yd). */
  datatype Entry = Entry(atom: nat, xyd: real, xd: real, yd: real)

  /** A contact as nb_add_pair receives it: atoms i and j, and the offsets
      from i to j. */
  datatype Link = Link(i: nat, j: nat, dx: real, dy: real)

  /** The atoms an atom's list names, in list order. */
  function Atoms(row: seq<Entry>): (s: seq<nat>)
    ensures |s| == |row| && forall k :: 0 <= k < |row| ==> s[k] == row[k].atom
  {
    if row == [] then [] else Atoms(row[..|row| - 1]) + [row[|row| - 1].atom]
  }

  /** A capacity the buffers can have: a positive multiple of NB_CHUNK. */
  predicate Chunked(c: nat)
  {
    c >= NB_CHUNK && c % NB_CHUNK == 0
  }

  /** The table of n atoms before any contact is recorded. */
  function Empty(n: nat): (t: seq<seq<Entry>>)
    ensures |t| == n && forall i :: 0 <= i < n ==> t[i] == []
  {
    seq(n, i => [])
  }

  /** A link the table can take: two different atoms of the table. */
  predicate Fits(n: nat, l: Link)
  {
    l.i < n && l.j < n && l.i != l.j
  }

  /** The planar distance nb_add_pair stores for offsets dx and dy. */
  function PlanarDistance(m: Libm, dx: real, dy: real): real
  {
    m.sqrt(Sq(dx) + Sq(dy))
  }

  /** The table after nb_add_pair records link l (src/nb.c:282-298): j
      goes at the end of i's list with offsets (dx, dy), i at the end of
      j's list with offsets (-dx, -dy), both with the same distance. A
      link naming an atom outside the table, or the same atom twice, is
      not one nb_add_pair is ever given; it leaves the table as it is. */
  function Record(m: Libm, t: seq<seq<Entry>>, l: Link): (u: seq<seq<Entry>>)
    ensures |u| == |t|
    ensures Fits(|t|, l) ==>
      u[l.i] == t[l.i] + [Entry(l.j, PlanarDistance(m, l.dx, l.dy), l.dx, l.dy)] &&
      u[l.j] == t[l.j] + [Entry(l.i, PlanarDistance(m, l.dx, l.dy), -l.dx, -l.dy)] &&
      forall k :: 0 <= k < |t| && k != l.i && k != l.j ==> u[k] == t[k]
    ensures !Fits(|t|, l) ==> u == t
  {
    if !Fits(|t|, l) then t
    else
      var d := PlanarDistance(m, l.dx, l.dy);
      t[l.i := t[l.i] + [Entry(l.j, d, l.dx, l.dy)]][l.j := t[l.j] + [Entry(l.i, d, -l.dx, -l.dy)]]
  }

  /** The table after the links of log are recorded in order. */
  function RecordAll(m: Libm, t: seq<seq<Entry>>, log: seq<Link>): (u: seq<seq<Entry>>)
    ensures |u| == |t|
  {
    if log == [] then t else Record(m, RecordAll(m, t, log[..|log| - 1]), log[|log| - 1])
  }

  lemma RecordAllPush(m: Libm, t: seq<seq<Entry>>, log: seq<Link>, l: Link)
    ensures RecordAll(m, t, log + [l]) == Record(m, RecordAll(m, t, log), l)
  {
    assert (log + [l])[..|log|] == log;
  }

  /** Recording two logs one after the other records their concatenation. */
  lemma {:induction false} RecordAllConcat(m: Libm, t: seq<seq<Entry>>, log: seq<Link>, more: seq<Link>)
    ensures RecordAll(m, t, log + more) == RecordAll(m, RecordAll(m, t, log), more)
    decreases |more|
  {
    if more != [] {
      var init, last := more[..|more| - 1], more[|more| - 1];
      RecordAllConcat(m, t, log, init);
      assert log + more == (log + init) + [last];
      RecordAllPush(m, t, log + init, last);
    } else {
      assert log + more == log;
    }
  }

  /** The mirror image of entry e of atom i's list, as it appears in the
      list of atom e.atom. */
  function Mirror(i: nat, e: Entry): Entry
  {
    Entry(i, e.xyd, -e.xd, -e.yd)
  }

  /** Every entry has its mirror entry in the list of the atom it names,
      and no atom lists itself. */
  ghost predicate Symmetric(t: seq<seq<Entry>>)
  {
    forall i: nat, k: nat :: i < |t| && k < |t[i]| ==>
      t[i][k].atom < |t| && t[i][k].atom != i && Mirror(i, t[i][k]) in t[t[i][k].atom]
  }

  lemma RecordSymmetric(m: Libm, t: seq<seq<Entry>>, l: Link)
    requires Symmetric(t)
    ensures Symmetric(Record(m, t, l))
  {
    var u: seq<seq<Entry>> := Record(m, t, l);
    forall i: nat, k: nat | i < |u| && k < |u[i]|
      ensures u[i][k].atom < |u| && u[i][k].atom != i && Mirror(i, u[i][k]) in u[u[i][k].atom]
    {
      if k < |t[i]| {
        assert u[i][k] == t[i][k];
        var a := t[i][k].atom;
        assert t[a] <= u[a];
      }
    }
  }

  /** Every insertion is symmetric: a table built from the empty one by
      recording links keeps every entry mirrored and no atom in its own
      list (src/nb.c:287-298). */
  lemma {:induction false} RecordAllSymmetric(m: Libm, n: nat, log: seq<Link>)
    ensures Symmetric(RecordAll(m, Empty(n), log))
  {
    if log != [] {
      var init := log[..|log| - 1];
      RecordAllSymmetric(m, n, init);
      RecordSymmetric(m, RecordAll(m, Empty(n), init), log[|log| - 1]);
    }
  }

  lemma MirrorListed(t: seq<seq<Entry>>, i: nat, j: nat)
    requires Symmetric(t) && i < |t| && j in Atoms(t[i])
    ensures i in Atoms(t[j]) && j != i
  {
    var k :| 0 <= k < |t[i]| && Atoms(t[i])[k] == j;
    var e := t[i][k];
    assert e.atom == j;
    assert Mirror(i, e) in t[j];
    var kk :| 0 <= kk < |t[j]| && t[j][kk] == Mirror(i, e);
    assert Atoms(t[j])[kk] == i;
  }

  /** In a symmetric table the contact relation is symmetric and
      irreflexive. */
  lemma SymmetricContacts(t: seq<seq<Entry>>, i: nat, j: nat)
    requires Symmetric(t) && i < |t| && j < |t|
    ensures j in Atoms(t[i]) <==> i in Atoms(t[j])
    ensures i !in Atoms(t[i])
  {
    if j in Atoms(t[i]) {
      MirrorListed(t, i, j);
    }
    if i in Atoms(t[j]) {
      MirrorListed(t, j, i);
    }
    if i in Atoms(t[i]) {
      MirrorListed(t, i, i);
    }
  }

  /** Every recorded link puts each atom in the other's list. */
  lemma {:induction false} RecordAllHas(m: Libm, t: seq<seq<Entry>>, log: seq<Link>, l: Link)
    requires Fits(|t|, l) && l in log
    ensures l.j in Atoms(RecordAll(m, t, log)[l.i]) && l.i in Atoms(RecordAll(m, t, log)[l.j])
  {
    var init, last := log[..|log| - 1], log[|log| - 1];
    var u := RecordAll(m, t, init);
    var w := RecordAll(m, t, log);
    assert forall a :: 0 <= a < |u| ==> u[a] <= w[a];
    if l == last {
      assert Atoms(w[l.i])[|w[l.i]| - 1] == l.j;
      assert Atoms(w[l.j])[|w[l.j]| - 1] == l.i;
    } else {
      assert l in init;
      RecordAllHas(m, t, init, l);
      var ki :| 0 <= ki < |u[l.i]| && Atoms(u[l.i])[ki] == l.j;
      var kj :| 0 <= kj < |u[l.j]| && Atoms(u[l.j])[kj] == l.i;
      assert Atoms(w[l.i])[ki] == l.j;
      assert Atoms(w[l.j])[kj] == l.i;
    }
  }

  /** Every entry of a table built from the empty one comes from a link
      of the log, in one of its two directions. */
  lemma {:induction false} RecordAllOnly(m: Libm, n: nat, log: seq<Link>, i: nat, j: nat)
    requires i < n && j in Atoms(RecordAll(m, Empty(n), log)[i])
    ensures exists l :: l in log && ((l.i == i && l.j == j) || (l.i == j && l.j == i))
  {
    var init, last := log[..|log| - 1], log[|log| - 1];
    var u := RecordAll(m, Empty(n), init);
    var w := RecordAll(m, Empty(n), log);
    var k :| 0 <= k < |w[i]| && Atoms(w[i])[k] == j;
    if k < |u[i]| {
      assert u[i] <= w[i];
      assert Atoms(u[i])[k] == j;
      RecordAllOnly(m, n, init, i, j);
      var l :| l in init && ((l.i == i && l.j == j) || (l.i == j && l.j == i));
      assert l in log;
    } else {
      assert last in log;
    }
  }

  /** k copies of v: the slots a fresh or grown buffer holds. */
  function Fill<T>(k: nat, v: T): (s: seq<T>)
    ensures |s| == k && forall e :: 0 <= e < k ==> s[e] == v
  {
    seq(k, _ => v)
  }

  /** The number of slots chunk_up adds to a buffer of the given capacity
      that has to hold nni entries. */
  function Growth(capacity: nat, nni: nat): nat
  {
    if nni > capacity then NB_CHUNK else 0
  }

  /** The buffers of one atom are well formed: the capacity is a positive
      multiple of NB_CHUNK, holds the count, is the length of every buffer,
      and the first count slots spell the entries of row. */
  predicate RowFits(row: seq<Entry>, count: nat, cap: nat, nb: seq<nat>, xyd: seq<real>, xd: seq<real>, yd: seq<real>)
  {
    Chunked(cap) && count <= cap && |nb| == cap && |xyd| == cap && |xd| == cap && |yd| == cap &&
    |row| == count && forall k :: 0 <= k < count ==> row[k] == Entry(nb[k], xyd[k], xd[k], yd[k])
  }

  /** What max_array leaves in max after the first k elements of a: the
      running fmax, starting from zero. */
  function MaxOf(a: seq<real>, k: nat): real
    requires k <= |a|
  {
    if k == 0 then 0.0 else Max(a[k - 1], MaxOf(a, k - 1))
  }

  /** MaxOf is the largest of zero and the first k elements. */
  lemma {:induction false} MaxOfBounds(a: seq<real>, k: nat)
    requires k <= |a|
    ensures MaxOf(a, k) >= 0.0
    ensures forall i :: 0 <= i < k ==> a[i] <= MaxOf(a, k)
    ensures MaxOf(a, k) == 0.0 || exists i :: 0 <= i < k && MaxOf(a, k) == a[i]
  {
    if k > 0 {
      MaxOfBounds(a, k - 1);
    }
  }

  /** max_array (src/nb.c:194-201). */
  method MaxArray(a: seq<real>) returns (max: real)
    ensures max == MaxOf(a, |a|)
  {
    max := 0.0;
    for i := 0 to |a|
      invariant max == MaxOf(a, i)
    {
      max := Max(a[i], max);
    }
  }

  /** The neighbour table (struct freesasa_nb): per atom a count nn, a
      capacity, and four buffers of that capacity whose first nn slots
      hold the atom's entries. table is the list of entries of every atom. */
  class Adjacency {
    const n: nat
    const nn: array<nat>
    const capacity: array<nat>
    const nb: array<seq<nat>>
    const xyd: array<seq<real>>
    const xd: array<seq<real>>
    const yd: array<seq<real>>
    ghost var table: seq<seq<Entry>>

    ghost predicate Shape()
      reads this
    {
      nn.Length == n && capacity.Length == n && nb.Length == n &&
      xyd.Length == n && xd.Length == n && yd.Length == n &&
      nn != capacity && xyd != xd && xyd != yd && xd != yd && |table| == n
    }

    ghost predicate Valid()
      reads this, nn, capacity, nb, xyd, xd, yd
    {
      Shape() &&
      forall i :: 0 <= i < n ==> RowFits(table[i], nn[i], capacity[i], nb[i], xyd[i], xd[i], yd[i])
    }

    /** freesasa_nb_alloc (src/nb.c:204-226): n empty lists, each with
        buffers of NB_CHUNK slots; malloc leaves the slots undefined, here
        they hold zeros. */
    constructor (n: nat)
      requires n > 0
      ensures Valid() && this.n == n && table == Empty(n)
      ensures fresh(nn) && fresh(capacity) && fresh(nb) && fresh(xyd) && fresh(xd) && fresh(yd)
      ensures forall i :: 0 <= i < n ==> nn[i] == 0 && capacity[i] == NB_CHUNK
    {
      this.n := n;
      nn := new nat[n](_ => 0);
      capacity := new nat[n](_ => NB_CHUNK);
      nb := new seq<nat>[n](_ => Fill(NB_CHUNK, 0));
      xyd := new seq<real>[n](_ => Fill(NB_CHUNK, 0.0));
      xd := new seq<real>[n](_ => Fill(NB_CHUNK, 0.0));
      yd := new seq<real>[n](_ => Fill(NB_CHUNK, 0.0));
      table := Empty(n);
    }

    /** chunk_up (src/nb.c:248-263) on the buffers of atom i: when the
        count has passed the capacity, the capacity grows by NB_CHUNK and
        every buffer by as many slots (undefined after realloc, zeros
        here); the first entries and all other atoms stay as they are. */
    method ChunkUp(i: nat)
      requires Shape() && i < n && Chunked(capacity[i]) && nn[i] <= capacity[i] + 1
      requires |nb[i]| == capacity[i] && |xyd[i]| == capacity[i] && |xd[i]| == capacity[i] && |yd[i]| == capacity[i]
      modifies capacity, nb, xyd, xd, yd
      ensures Shape() && Chunked(capacity[i]) && nn[i] <= capacity[i]
      ensures capacity[..] == old(capacity[..])[i := old(capacity[i]) + Growth(old(capacity[i]), nn[i])]
      ensures nb[..] == old(nb[..])[i := old(nb[i]) + Fill(Growth(old(capacity[i]), nn[i]), 0)]
      ensures xyd[..] == old(xyd[..])[i := old(xyd[i]) + Fill(Growth(old(capacity[i]), nn[i]), 0.0)]
      ensures xd[..] == old(xd[..])[i := old(xd[i]) + Fill(Growth(old(capacity[i]), nn[i]), 0.0)]
      ensures yd[..] == old(yd[..])[i := old(yd[i]) + Fill(Growth(old(capacity[i]), nn[i]), 0.0)]
    {
      if nn[i] > capacity[i] {
        capacity[i] := capacity[i] + NB_CHUNK;
        nb[i] := nb[i] + Fill(NB_CHUNK, 0);
        xyd[i] := xyd[i] + Fill(NB_CHUNK, 0.0);
        xd[i] := xd[i] + Fill(NB_CHUNK, 0.0);
        yd[i] := yd[i] + Fill(NB_CHUNK, 0.0);
      } else {
        assert nb[i] + Fill(0, 0) == nb[i];
        assert xyd[i] + Fill(0, 0.0) == xyd[i] && xd[i] + Fill(0, 0.0) == xd[i] && yd[i] + Fill(0, 0.0) == yd[i];
      }
    }
  
    /** Writes entry e to slot k of the buffers of atom i
        (src/nb.c:287-298, one side). */
    method Put(i: nat, k: nat, e: Entry)
      requires Shape() && i < n && k < |nb[i]| && k < |xyd[i]| && k < |xd[i]| && k < |yd[i]|
      modifies nb, xyd, xd, yd
      ensures Shape()
      ensures nb[..] == old(nb[..])[i := old(nb[i])[k := e.atom]]
      ensures xyd[..] == old(xyd[..])[i := old(xyd[i])[k := e.xyd]]
      ensures xd[..] == old(xd[..])[i := old(xd[i])[k := e.xd]]
      ensures yd[..] == old(yd[..])[i := old(yd[i])[k := e.yd]]
    {
      nb[i] := nb[i][k := e.atom];
      xyd[i] := xyd[i][k := e.xyd];
      xd[i] := xd[i][k := e.xd];
      yd[i] := yd[i][k := e.yd];
    }

    /** One side of nb_add_pair (src/nb.c:282-298): counts one more
        entry for atom i, grows its buffers if needed and writes e to the
        new last slot. */
    method Append(i: nat, e: Entry)
      requires Valid() && i < n
      modifies this, nn, capacity, nb, xyd, xd, yd
      ensures Valid()
      ensures table == old(table)[i := old(table[i]) + [e]]
      ensures nn[..] == old(nn[..])[i := old(nn[i]) + 1]
      ensures forall k :: 0 <= k < n && k != i ==> capacity[k] == old(capacity[k])
    {
      ghost var T, NN, NB, XYD, XD, YD, CAP := table, nn[..], nb[..], xyd[..], xd[..], yd[..], capacity[..];
      assert RowFits(T[i], NN[i], CAP[i], NB[i], XYD[i], XD[i], YD[i]);
      nn[i] := nn[i] + 1;
      ghost var g := Growth(CAP[i], nn[i]);
      ChunkUp(i);
      Put(i, nn[i] - 1, e);
      table := T[i := T[i] + [e]];
      assert RowFits(table[i], nn[i], capacity[i], nb[i], xyd[i], xd[i], yd[i]);
      forall k | 0 <= k < n && k != i
        ensures RowFits(table[k], nn[k], capacity[k], nb[k], xyd[k], xd[k], yd[k])
      {
        assert RowFits(T[k], NN[k], CAP[k], NB[k], XYD[k], XD[k], YD[k]);
      }
    }

    /** nb_add_pair (src/nb.c:270-299): counts one more contact for i and
        for j, grows their buffers if needed, and appends j with offsets
        (dx, dy) to the list of i and i with (-dx, -dy) to the list of j,
        both with planar distance sqrt(dx^2 + dy^2). The two lists are
        disjoint, so the source's interleaving of the two sides (both
        counts, both growths, then the writes) leaves the same state as
        one side after the other. */
    method AddPair(m: Libm, i: nat, j: nat, dx: real, dy: real)
      requires Valid() && i < n && j < n && i != j
      modifies this, nn, capacity, nb, xyd, xd, yd
      ensures Valid()
      ensures table == Record(m, old(table), Link(i, j, dx, dy))
      ensures nn[..] == old(nn[..])[i := old(nn[i]) + 1][j := old(nn[j]) + 1]
      ensures forall k :: 0 <= k < n && k != i && k != j ==> capacity[k] == old(capacity[k])
    {
      var d := m.sqrt(Sq(dx) + Sq(dy));
      Append(i, Entry(j, d, dx, dy));
      Append(j, Entry(i, d, -dx, -dy));
    }

    /** The inner loop of nb_calc_cell_pair (src/nb.c:325-340): compares
        atom ia with B[from], B[from + 1], ... and records each pair that
        passes the pair test, with the offsets from ia to the other atom. */
    method CompareAtom(m: Libm, xyz: seq<Coord>, radii: seq<real>, ia: nat, B: seq<nat>, from: nat)
      requires Valid() && n == |xyz| && |radii| == |xyz| && ia < n && Below(B, n) && from <= |B|
      requires forall y :: from <= y < |B| ==> B[y] != ia
      modifies this, nn, capacity, nb, xyd, xd, yd
      ensures Valid()
      ensures table == RecordAll(m, old(table), ColLinks(xyz, radii, ia, B, from, |B|))
    {
      ghost var T := table;
      ghost var log: seq<Link> := [];
      var ri, pi := radii[ia], xyz[ia];
      var y := from;
      while y < |B|
        invariant from <= y <= |B| && Valid() && |T| == n
        invariant log == ColLinks(xyz, radii, ia, B, from, y)
        invariant table == RecordAll(m, T, log)
      {
        var ja := B[y];
        var rj, pj := radii[ja], xyz[ja];
        ColLinksStep(xyz, radii, ia, B, from, y);
        var hit, dx, dy := ComparePair(pi, ri, pj, rj);
        if hit {
          assert LinkOf(xyz, ia, ja) == Link(ia, ja, dx, dy);
          AddPair(m, ia, ja, dx, dy);
          RecordAllPush(m, T, log, Link(ia, ja, dx, dy));
          log := log + [Link(ia, ja, dx, dy)];
        }
        y := y + 1;
      }
    }

    /** nb_calc_cell_pair (src/nb.c:306-342): compares every atom of
        list A with the atoms of list B (the later atoms of A when both
        cells are the same) and records each pair that passes the pair
        test. */
    method CalcCellPair(m: Libm, xyz: seq<Coord>, radii: seq<real>, A: seq<nat>, B: seq<nat>, same: bool)
      requires Valid() && n == |xyz| && |radii| == |xyz| && Pairable(n, A, B, same)
      modifies this, nn, capacity, nb, xyd, xd, yd
      ensures Valid()
      ensures table == RecordAll(m, old(table), CellLinks(xyz, radii, A, B, same, |A|))
    {
      ghost var T := table;
      ghost var done: seq<Link> := [];
      for x := 0 to |A|
        invariant Valid() && |T| == n
        invariant done == CellLinks(xyz, radii, A, B, same, x)
        invariant table == RecordAll(m, T, done)
      {
        var from := if same then x + 1 else 0;
        CellLinksStep(xyz, radii, A, B, same, x);
        CompareAtom(m, xyz, radii, A[x], B, from);
        ghost var more := ColLinks(xyz, radii, A[x], B, from, |B|);
        RecordAllConcat(m, T, done, more);
        done := done + more;
      }
    }

    /** The inner loop of nb_fill_list (src/nb.c:355-358): compares cell ic
        with each cell of its neighbour list, in list order. */
    method FillCell(m: Libm, xyz: seq<Coord>, radii: seq<real>, cells: CellList, ic: nat)
      requires Valid() && n == |xyz| && |radii| == |xyz| && ic < cells.n
      requires cells.Valid() && CellsOk(n, cells.nb[..], cells.atom[..]) && cells.atom != nb
      modifies this, nn, capacity, nb, xyd, xd, yd
      ensures Valid()
      ensures table == RecordAll(m, old(table), NbLinks(xyz, radii, cells.nb[..], cells.atom[..], ic, |cells.nb[ic]|))
    {
      ghost var T := table;
      ghost var nbs, atoms := cells.nb[..], cells.atom[..];
      ghost var done: seq<Link> := [];
      var ci := cells.atom[ic];
      var list := cells.nb[ic];
      for jc := 0 to |list|
        invariant Valid() && |T| == n && cells.nb[..] == nbs && cells.atom[..] == atoms
        invariant done == NbLinks(xyz, radii, nbs, atoms, ic, jc)
        invariant table == RecordAll(m, T, done)
      {
        var cj := list[jc];
        NbLinksStep(xyz, radii, nbs, atoms, ic, jc);
        CalcCellPair(m, xyz, radii, ci, cells.atom[cj], ic == cj);
        ghost var more := CellLinks(xyz, radii, ci, cells.atom[cj], ic == cj, |ci|);
        RecordAllConcat(m, T, done, more);
        done := done + more;
      }
    }

    /** nb_fill_list (src/nb.c:348-361): compares every cell with each
        cell of its neighbour list, in cell order. */
    method FillList(m: Libm, xyz: seq<Coord>, radii: seq<real>, cells: CellList)
      requires Valid() && n == |xyz| && |radii| == |xyz|
      requires cells.Valid() && CellsOk(n, cells.nb[..], cells.atom[..]) && cells.atom != nb
      modifies this, nn, capacity, nb, xyd, xd, yd
      ensures Valid()
      ensures table == RecordAll(m, old(table), FillLinks(xyz, radii, cells.nb[..], cells.atom[..], cells.n))
    {
      ghost var T := table;
      ghost var nbs, atoms := cells.nb[..], cells.atom[..];
      ghost var done: seq<Link> := [];
      var nc := cells.n;
      for ic := 0 to nc
        invariant Valid() && |T| == n && cells.nb[..] == nbs && cells.atom[..] == atoms
        invariant done == FillLinks(xyz, radii, nbs, atoms, ic)
        invariant table == RecordAll(m, T, done)
      {
        FillCell(m, xyz, radii, cells, ic);
        ghost var row := NbLinks(xyz, radii, nbs, atoms, ic, |nbs[ic]|);
        FillLinksStep(xyz, radii, nbs, atoms, ic);
        RecordAllConcat(m, T, done, row);
        done := done + row;
      }
    }

    /** freesasa_nb_new (src/nb.c:363-379): no table without coordinates
        or radii; otherwise the cell list with cells of twice the largest
        radius, and every contact it yields recorded in a fresh table.
        cell_list_bounds and coord2cell_index are the layout parameter. */
    static method NbNew(m: Libm, coord: Option<seq<Coord>>, radii: Option<seq<real>>,
                        layout: (real, seq<Coord>) -> Grid) returns (adj: Option<Adjacency>)
      requires coord.Some? && radii.Some? ==> NbInput(coord.value, radii.value, layout)
      ensures adj.None? <==> coord.None? || radii.None?
      ensures adj.Some? ==> fresh(adj.value) && adj.value.Valid() && adj.value.n == |coord.value|
      ensures adj.Some? ==>
        adj.value.table == Table(m, coord.value, radii.value, CellGrid(coord.value, radii.value, layout))
    {
      if coord.None? || radii.None? {
        return None;
      }
      var xyz, r := coord.value, radii.value;
      var a := new Adjacency(|xyz|);
      var max := MaxArray(r);
      var g := layout(2.0 * max, xyz);
      assert g == CellGrid(xyz, r, layout);
      var cells := new CellList(g.nx, g.ny, g.nz, g.place);
      assert cells.nb[..] == GridNb(g) && cells.atom[..] == GridAtoms(g);
      GridCellsOk(g, |xyz|);
      a.FillList(m, xyz, r, cells);
      adj := Some(a);
    }

    /** freesasa_nb_contact (src/nb.c:381-391): 1 when j is among the
        first nn[i] entries of the list of i, 0 otherwise. */
    method Contact(i: nat, j: nat) returns (r: int)
      requires Valid() && i < n && j < n
      ensures r == (if j in nb[i][..nn[i]] then 1 else 0)
      ensures r == 1 <==> j in Atoms(table[i])
    {
      assert RowFits(table[i], nn[i], capacity[i], nb[i], xyd[i], xd[i], yd[i]);
      assert Atoms(table[i]) == nb[i][..nn[i]];
      var k := 0;
      while k < nn[i]
        invariant 0 <= k <= nn[i]
        invariant j !in nb[i][..k]
      {
        if nb[i][k] == j {
          assert nb[i][..nn[i]][k] == j;
          return 1;
        }
        assert nb[i][..k + 1] == nb[i][..k] + [nb[i][k]];
        k := k + 1;
      }
      assert nb[i][..k] == nb[i][..nn[i]];
      return 0;
    }
  }

  /** Link l is a contact of the atoms: the pair test accepts atoms l.i
      and l.j, which are different, and l carries the offsets from l.i
      to l.j. */
  predicate Found(xyz: seq<Coord>, radii: seq<real>, l: Link)
    requires |radii| == |xyz|
  {
    l.i < |xyz| && l.j < |xyz| && Touch(xyz, radii, l.i, l.j) &&
    l.dx == xyz[l.j].x - xyz[l.i].x && l.dy == xyz[l.j].y - xyz[l.i].y
  }

  /** Every link of log is a contact. */
  predicate AllFound(xyz: seq<Coord>, radii: seq<real>, log: seq<Link>)
    requires |radii| == |xyz|
  {
    forall k :: 0 <= k < |log| ==> Found(xyz, radii, log[k])
  }

  /** Every atom of s indexes the coordinates. */
  predicate Below(s: seq<nat>, n: nat)
  {
    forall k :: 0 <= k < |s| ==> s[k] < n
  }

  /** The atom lists A and B of two cells can be compared as
      nb_calc_cell_pair does: for the same cell the list is strictly
      increasing, for different cells the lists share no atom, so no atom
      is paired with itself (src/nb.c:322-327). */
  predicate Pairable(n: nat, A: seq<nat>, B: seq<nat>, same: bool)
  {
    Below(A, n) && Below(B, n) &&
    (same ==> A == B && Increasing(A)) &&
    (!same ==> forall x, y :: 0 <= x < |A| && 0 <= y < |B| ==> A[x] != B[y])
  }

  /** The body of the inner loop of nb_calc_cell_pair (src/nb.c:326-337):
      the three axis pre-filters skip the pair, otherwise the squared
      distance decides; a hit also yields the planar offsets. */
  method ComparePair(pi: Coord, ri: real, pj: Coord, rj: real) returns (hit: bool, dx: real, dy: real)
    ensures hit == PairTest(pi, ri, pj, rj)
    ensures hit ==> dx == pj.x - pi.x && dy == pj.y - pi.y
  {
    hit, dx, dy := false, 0.0, 0.0;
    var cut2 := (ri + rj) * (ri + rj);
    if Sq(pj.x - pi.x) > cut2 || Sq(pj.y - pi.y) > cut2 || Sq(pj.z - pi.z) > cut2 {
      return;
    }
    var dz: real;
    dx, dy, dz := pj.x - pi.x, pj.y - pi.y, pj.z - pi.z;
    hit := Sq(dx) + Sq(dy) + Sq(dz) < cut2;
  }

  /** The link nb_calc_cell_pair records for atoms a and b: the offsets
      from a to b in x and y. */
  function LinkOf(xyz: seq<Coord>, a: nat, b: nat): Link
    requires a < |xyz| && b < |xyz|
  {
    Link(a, b, xyz[b].x - xyz[a].x, xyz[b].y - xyz[a].y)
  }

  /** The contacts the inner loop of nb_calc_cell_pair finds for atom a
      against B[from], ..., B[j - 1]: each pair that passes the pair test
      of src/nb.c:330-337, in order. */
  function ColLinks(xyz: seq<Coord>, radii: seq<real>, a: nat, B: seq<nat>, from: nat, j: nat): (r: seq<Link>)
    requires |radii| == |xyz| && a < |xyz| && Below(B, |xyz|) && from <= j <= |B|
    requires forall y :: from <= y < |B| ==> B[y] != a
    decreases j
  {
    if j == from then []
    else
      var b := B[j - 1];
      ColLinks(xyz, radii, a, B, from, j - 1) +
        (if PairTest(xyz[a], radii[a], xyz[b], radii[b]) then [LinkOf(xyz, a, b)] else [])
  }

  /** One more column of the inner loop appends the pair when it passes
      the pair test and nothing otherwise. */
  lemma ColLinksStep(xyz: seq<Coord>, radii: seq<real>, a: nat, B: seq<nat>, from: nat, y: nat)
    requires |radii| == |xyz| && a < |xyz| && Below(B, |xyz|) && from <= y < |B|
    requires forall y :: from <= y < |B| ==> B[y] != a
    ensures ColLinks(xyz, radii, a, B, from, y + 1) == ColLinks(xyz, radii, a, B, from, y) +
      (if PairTest(xyz[a], radii[a], xyz[B[y]], radii[B[y]]) then [LinkOf(xyz, a, B[y])] else [])
  {
  }

  /** The contacts the inner loop of nb_calc_cell_pair finds for atom
      A[p]: against all of B, or against the later atoms of A when both
      cells are the same. */
  function AtomLinks(xyz: seq<Coord>, radii: seq<real>, A: seq<nat>, B: seq<nat>, same: bool, p: nat): (r: seq<Link>)
    requires |radii| == |xyz| && Pairable(|xyz|, A, B, same) && p < |A|
  {
    var from := if same then p + 1 else 0;
    assert forall y :: from <= y < |B| ==> B[y] != A[p];
    ColLinks(xyz, radii, A[p], B, from, |B|)
  }

  /** The contacts nb_calc_cell_pair finds for the first x atoms of A:
      against all of B, or against the later atoms of A when both cells
      are the same (src/nb.c:318-341). */
  function CellLinks(xyz: seq<Coord>, radii: seq<real>, A: seq<nat>, B: seq<nat>, same: bool, x: nat): (r: seq<Link>)
    requires |radii| == |xyz| && Pairable(|xyz|, A, B, same) && x <= |A|
  {
    if x == 0 then []
    else CellLinks(xyz, radii, A, B, same, x - 1) + ColLinks(xyz, radii, A[x - 1], B, if same then x else 0, |B|)
  }

  /** One more atom of A in nb_calc_cell_pair appends what the inner loop
      finds for it. */
  lemma CellLinksStep(xyz: seq<Coord>, radii: seq<real>, A: seq<nat>, B: seq<nat>, same: bool, x: nat)
    requires |radii| == |xyz| && Pairable(|xyz|, A, B, same) && x < |A|
    ensures forall y :: (if same then x + 1 else 0) <= y < |B| ==> B[y] != A[x]
    ensures CellLinks(xyz, radii, A, B, same, x + 1) ==
      CellLinks(xyz, radii, A, B, same, x) + ColLinks(xyz, radii, A[x], B, if same then x + 1 else 0, |B|)
  {
  }

  /** The atoms of cell c. */
  function CellAtoms(g: Grid, c: int): seq<nat>
  {
    AtomsIn(g.nx, g.ny, g.place, c, |g.place|)
  }

  /** The neighbour cells of cell c. */
  function CellNb(g: Grid, c: nat): seq<int>
    requires g.nx > 0 && g.ny > 0
  {
    Stencil(g.nx, g.ny, g.nz, Decode(g.nx, g.ny, c))
  }

  /** Any two cells of a grid can be compared. */
  lemma CellsPairable(g: Grid, n: nat, c: int, d: int)
    requires GridOk(g, n)
    ensures Pairable(n, CellAtoms(g, c), CellAtoms(g, d), c == d)
  {
    AtomsInShape(g.nx, g.ny, g.place, c, n);
    AtomsInShape(g.nx, g.ny, g.place, d, n);
    if c != d {
      var A, B := CellAtoms(g, c), CellAtoms(g, d);
      forall x, y | 0 <= x < |A| && 0 <= y < |B|
        ensures A[x] != B[y]
      {
        assert A[x] in A && B[y] in B;
      }
    }
  }

  /** A cell list as nb_fill_list reads it: per cell the indices of its
      neighbour cells and its atoms; every listed cell exists and any two
      cells can be compared. */
  predicate CellsOk(n: nat, nbs: seq<seq<int>>, atoms: seq<seq<nat>>)
  {
    |nbs| == |atoms| &&
    (forall c, k :: 0 <= c < |nbs| && 0 <= k < |nbs[c]| ==> 0 <= nbs[c][k] < |atoms|) &&
    (forall c, d :: 0 <= c < |atoms| && 0 <= d < |atoms| ==> Pairable(n, atoms[c], atoms[d], c == d))
  }

  /** The contacts nb_calc_cell_pair finds for cells c and d. */
  function PairLinks(xyz: seq<Coord>, radii: seq<real>, nbs: seq<seq<int>>, atoms: seq<seq<nat>>, c: nat, d: nat): (r: seq<Link>)
    requires |radii| == |xyz| && CellsOk(|xyz|, nbs, atoms) && c < |atoms| && d < |atoms|
  {
    CellLinks(xyz, radii, atoms[c], atoms[d], c == d, |atoms[c]|)
  }

  /** The contacts nb_fill_list finds for cell ic against its first jc
      neighbour cells. */
  function NbLinks(xyz: seq<Coord>, radii: seq<real>, nbs: seq<seq<int>>, atoms: seq<seq<nat>>, ic: nat, jc: nat): (r: seq<Link>)
    requires |radii| == |xyz| && CellsOk(|xyz|, nbs, atoms) && ic < |nbs| && jc <= |nbs[ic]|
  {
    if jc == 0 then []
    else NbLinks(xyz, radii, nbs, atoms, ic, jc - 1) + PairLinks(xyz, radii, nbs, atoms, ic, nbs[ic][jc - 1])
  }

  /** One more neighbour cell of ic in nb_fill_list appends what
      nb_calc_cell_pair finds for the two cells. */
  lemma NbLinksStep(xyz: seq<Coord>, radii: seq<real>, nbs: seq<seq<int>>, atoms: seq<seq<nat>>, ic: nat, jc: nat)
    requires |radii| == |xyz| && CellsOk(|xyz|, nbs, atoms) && ic < |nbs| && jc < |nbs[ic]|
    ensures 0 <= nbs[ic][jc] < |atoms|
    ensures Pairable(|xyz|, atoms[ic], atoms[nbs[ic][jc]], ic == nbs[ic][jc])
    ensures NbLinks(xyz, radii, nbs, atoms, ic, jc + 1) == NbLinks(xyz, radii, nbs, atoms, ic, jc) +
      CellLinks(xyz, radii, atoms[ic], atoms[nbs[ic][jc]], ic == nbs[ic][jc], |atoms[ic]|)
  {
  }

  /** The contacts nb_fill_list finds for the cells below ic, in the order
      nb_add_pair receives them (src/nb.c:348-361). */
  function FillLinks(xyz: seq<Coord>, radii: seq<real>, nbs: seq<seq<int>>, atoms: seq<seq<nat>>, ic: nat): (r: seq<Link>)
    requires |radii| == |xyz| && CellsOk(|xyz|, nbs, atoms) && ic <= |nbs|
  {
    if ic == 0 then []
    else FillLinks(xyz, radii, nbs, atoms, ic - 1) + NbLinks(xyz, radii, nbs, atoms, ic - 1, |nbs[ic - 1]|)
  }

  /** One more cell in nb_fill_list appends what it finds for that cell. */
  lemma FillLinksStep(xyz: seq<Coord>, radii: seq<real>, nbs: seq<seq<int>>, atoms: seq<seq<nat>>, ic: nat)
    requires |radii| == |xyz| && CellsOk(|xyz|, nbs, atoms) && ic < |nbs|
    ensures FillLinks(xyz, radii, nbs, atoms, ic + 1) ==
      FillLinks(xyz, radii, nbs, atoms, ic) + NbLinks(xyz, radii, nbs, atoms, ic, |nbs[ic]|)
  {
  }

  /** The neighbour lists get_nb leaves in the cells of grid g. */
  function GridNb(g: Grid): (s: seq<seq<int>>)
    requires g.nx > 0 && g.ny > 0
    ensures |s| == g.nx * g.ny * g.nz
  {
    seq(g.nx * g.ny * g.nz, (c: int) requires 0 <= c => CellNb(g, c))
  }

  /** The atom lists fill_cells leaves in the cells of grid g. */
  function GridAtoms(g: Grid): (s: seq<seq<nat>>)
    ensures |s| == g.nx * g.ny * g.nz
  {
    seq(g.nx * g.ny * g.nz, (c: int) => CellAtoms(g, c))
  }

  /** The cell list cell_list_new builds for a grid can be read by
      nb_fill_list. */
  lemma GridCellsOk(g: Grid, n: nat)
    requires GridOk(g, n)
    ensures CellsOk(n, GridNb(g), GridAtoms(g))
  {
    var nbs, atoms := GridNb(g), GridAtoms(g);
    forall c, k | 0 <= c < |nbs| && 0 <= k < |nbs[c]|
      ensures 0 <= nbs[c][k] < |atoms|
    {
      DecodeIndex(g.nx, g.ny, g.nz, c);
      var p := Decode(g.nx, g.ny, c);
      StencilMembers(g.nx, g.ny, g.nz, p, p);
      assert nbs[c][k] in Stencil(g.nx, g.ny, g.nz, p);
    }
    forall c, d | 0 <= c < |atoms| && 0 <= d < |atoms|
      ensures Pairable(n, atoms[c], atoms[d], c == d)
    {
      CellsPairable(g, n, c, d);
    }
  }

  /** The table freesasa_nb_new builds for the atoms on grid g. */
  function Table(m: Libm, xyz: seq<Coord>, radii: seq<real>, g: Grid): (t: seq<seq<Entry>>)
    requires |radii| == |xyz| && GridOk(g, |xyz|)
    ensures |t| == |xyz|
  {
    GridCellsOk(g, |xyz|);
    RecordAll(m, Empty(|xyz|), FillLinks(xyz, radii, GridNb(g), GridAtoms(g), g.nx * g.ny * g.nz))
  }

  /** What freesasa_nb_new needs of its input: at least one atom, a radius
      for every atom, a positive largest radius, and a cell layout that
      places every atom in a grid of cells of twice that size. */
  predicate NbInput(xyz: seq<Coord>, radii: seq<real>, layout: (real, seq<Coord>) -> Grid)
  {
    |xyz| > 0 && |radii| == |xyz| && MaxOf(radii, |radii|) > 0.0 &&
    GridOk(CellGrid(xyz, radii, layout), |xyz|)
  }

  /** The cell list freesasa_nb_new lays out: cells twice as wide as the
      largest radius. */
  function CellGrid(xyz: seq<Coord>, radii: seq<real>, layout: (real, seq<Coord>) -> Grid): Grid
  {
    layout(2.0 * MaxOf(radii, |radii|), xyz)
  }

  lemma AllFoundConcat(xyz: seq<Coord>, radii: seq<real>, a: seq<Link>, b: seq<Link>)
    requires |radii| == |xyz| && AllFound(xyz, radii, a) && AllFound(xyz, radii, b)
    ensures AllFound(xyz, radii, a + b)
  {
    forall k | 0 <= k < |a + b|
      ensures Found(xyz, radii, (a + b)[k])
    {
      if k >= |a| {
        assert (a + b)[k] == b[k - |a|];
      }
    }
  }

  /** Every link of the inner loop is a contact with its offsets. */
  lemma {:induction false} ColLinksFound(xyz: seq<Coord>, radii: seq<real>, a: nat, B: seq<nat>, from: nat, j: nat)
    requires |radii| == |xyz| && a < |xyz| && Below(B, |xyz|) && from <= j <= |B|
    requires forall y :: from <= y < |B| ==> B[y] != a
    ensures AllFound(xyz, radii, ColLinks(xyz, radii, a, B, from, j))
    decreases j
  {
    if j > from {
      ColLinksFound(xyz, radii, a, B, from, j - 1);
      ColLinksStep(xyz, radii, a, B, from, j - 1);
      AllFoundConcat(xyz, radii, ColLinks(xyz, radii, a, B, from, j - 1),
        if PairTest(xyz[a], radii[a], xyz[B[j - 1]], radii[B[j - 1]]) then [LinkOf(xyz, a, B[j - 1])] else []);
    }
  }

  /** Every link nb_calc_cell_pair records is a contact with its offsets. */
  lemma {:induction false} CellLinksFound(xyz: seq<Coord>, radii: seq<real>, A: seq<nat>, B: seq<nat>, same: bool, x: nat)
    requires |radii| == |xyz| && Pairable(|xyz|, A, B, same) && x <= |A|
    ensures AllFound(xyz, radii, CellLinks(xyz, radii, A, B, same, x))
  {
    if x > 0 {
      var from := if same then x else 0;
      assert forall y :: from <= y < |B| ==> B[y] != A[x - 1];
      CellLinksFound(xyz, radii, A, B, same, x - 1);
      ColLinksFound(xyz, radii, A[x - 1], B, from, |B|);
      AllFoundConcat(xyz, radii, CellLinks(xyz, radii, A, B, same, x - 1), AtomLinks(xyz, radii, A, B, same, x - 1));
    }
  }

  lemma {:induction false} NbLinksFound(xyz: seq<Coord>, radii: seq<real>, nbs: seq<seq<int>>, atoms: seq<seq<nat>>, ic: nat, jc: nat)
    requires |radii| == |xyz| && CellsOk(|xyz|, nbs, atoms) && ic < |nbs| && jc <= |nbs[ic]|
    ensures AllFound(xyz, radii, NbLinks(xyz, radii, nbs, atoms, ic, jc))
  {
    if jc > 0 {
      var cj := nbs[ic][jc - 1];
      NbLinksFound(xyz, radii, nbs, atoms, ic, jc - 1);
      CellLinksFound(xyz, radii, atoms[ic], atoms[cj], ic == cj, |atoms[ic]|);
      AllFoundConcat(xyz, radii, NbLinks(xyz, radii, nbs, atoms, ic, jc - 1), PairLinks(xyz, radii, nbs, atoms, ic, cj));
    }
  }

  /** Every link nb_fill_list records is a contact with its offsets. */
  lemma {:induction false} FillLinksFound(xyz: seq<Coord>, radii: seq<real>, nbs: seq<seq<int>>, atoms: seq<seq<nat>>, ic: nat)
    requires |radii| == |xyz| && CellsOk(|xyz|, nbs, atoms) && ic <= |nbs|
    ensures AllFound(xyz, radii, FillLinks(xyz, radii, nbs, atoms, ic))
  {
    if ic > 0 {
      FillLinksFound(xyz, radii, nbs, atoms, ic - 1);
      NbLinksFound(xyz, radii, nbs, atoms, ic - 1, |nbs[ic - 1]|);
      AllFoundConcat(xyz, radii, FillLinks(xyz, radii, nbs, atoms, ic - 1), NbLinks(xyz, radii, nbs, atoms, ic - 1, |nbs[ic - 1]|));
    }
  }

  /** The inner loop records atom a against every B[y] in its range that
      passes the pair test. */
  lemma {:induction false} ColLinksHas(xyz: seq<Coord>, radii: seq<real>, a: nat, B: seq<nat>, from: nat, j: nat, y: nat)
    requires |radii| == |xyz| && a < |xyz| && Below(B, |xyz|) && from <= j <= |B|
    requires forall y :: from <= y < |B| ==> B[y] != a
    requires from <= y < j && PairTest(xyz[a], radii[a], xyz[B[y]], radii[B[y]])
    ensures LinkOf(xyz, a, B[y]) in ColLinks(xyz, radii, a, B, from, j)
    decreases j
  {
    ColLinksStep(xyz, radii, a, B, from, j - 1);
    if y < j - 1 {
      ColLinksHas(xyz, radii, a, B, from, j - 1, y);
    }
  }

  /** The inner loop for A[p] records it against B[y] when the pair
      passes the pair test, for different cells, and for the same cell
      when p < y. */
  lemma AtomLinksHas(xyz: seq<Coord>, radii: seq<real>, A: seq<nat>, B: seq<nat>, same: bool, p: nat, y: nat)
    requires |radii| == |xyz| && Pairable(|xyz|, A, B, same) && p < |A|
    requires y < |B| && (same ==> p < y) && PairTest(xyz[A[p]], radii[A[p]], xyz[B[y]], radii[B[y]])
    ensures LinkOf(xyz, A[p], B[y]) in AtomLinks(xyz, radii, A, B, same, p)
  {
    var from := if same then p + 1 else 0;
    assert forall z :: from <= z < |B| ==> B[z] != A[p];
    ColLinksHas(xyz, radii, A[p], B, from, |B|, y);
  }

  /** nb_calc_cell_pair keeps what the inner loop finds for each of the
      first x atoms of A. */
  lemma {:induction false} CellLinksHas(xyz: seq<Coord>, radii: seq<real>, A: seq<nat>, B: seq<nat>, same: bool, x: nat, p: nat, l: Link)
    requires |radii| == |xyz| && Pairable(|xyz|, A, B, same) && p < x <= |A|
    requires l in AtomLinks(xyz, radii, A, B, same, p)
    ensures l in CellLinks(xyz, radii, A, B, same, x)
  {
    var prev, more := CellLinks(xyz, radii, A, B, same, x - 1), AtomLinks(xyz, radii, A, B, same, x - 1);
    assert CellLinks(xyz, radii, A, B, same, x) == prev + more;
    if p < x - 1 {
      CellLinksHas(xyz, radii, A, B, same, x - 1, p, l);
      assert l in prev;
    } else {
      assert l in more;
    }
  }

  /** nb_fill_list keeps what nb_calc_cell_pair finds for cell ic and
      each of its first jc neighbour cells. */
  lemma {:induction false} NbLinksHas(xyz: seq<Coord>, radii: seq<real>, nbs: seq<seq<int>>, atoms: seq<seq<nat>>,
                                      ic: nat, jc: nat, q: nat, l: Link)
    requires |radii| == |xyz| && CellsOk(|xyz|, nbs, atoms) && ic < |nbs| && q < jc <= |nbs[ic]|
    requires l in PairLinks(xyz, radii, nbs, atoms, ic, nbs[ic][q])
    ensures l in NbLinks(xyz, radii, nbs, atoms, ic, jc)
  {
    var prev, more := NbLinks(xyz, radii, nbs, atoms, ic, jc - 1), PairLinks(xyz, radii, nbs, atoms, ic, nbs[ic][jc - 1]);
    assert NbLinks(xyz, radii, nbs, atoms, ic, jc) == prev + more;
    if q < jc - 1 {
      NbLinksHas(xyz, radii, nbs, atoms, ic, jc - 1, q, l);
      assert l in prev;
    } else {
      assert l in more;
    }
  }

  /** nb_fill_list keeps what it finds for each of the cells below ic. */
  lemma {:induction false} FillLinksHas(xyz: seq<Coord>, radii: seq<real>, nbs: seq<seq<int>>, atoms: seq<seq<nat>>,
                                        ic: nat, c: nat, l: Link)
    requires |radii| == |xyz| && CellsOk(|xyz|, nbs, atoms) && c < ic <= |nbs|
    requires l in NbLinks(xyz, radii, nbs, atoms, c, |nbs[c]|)
    ensures l in FillLinks(xyz, radii, nbs, atoms, ic)
  {
    var prev, more := FillLinks(xyz, radii, nbs, atoms, ic - 1), NbLinks(xyz, radii, nbs, atoms, ic - 1, |nbs[ic - 1]|);
    assert FillLinks(xyz, radii, nbs, atoms, ic) == prev + more;
    if c < ic - 1 {
      FillLinksHas(xyz, radii, nbs, atoms, ic - 1, c, l);
      assert l in prev;
    } else {
      assert l in more;
    }
  }
}
