/** One slice of the Lee & Richards calculation (sasa_add_slice_area in
    src/sasa_lr.c): which atoms the plane at height z cuts, the circles
    they leave in it, the neighbour lists restricted to those circles,
    and the area the slice adds to each atom. */
module Slices {
  import opened Geometry
  import opened Arcs
  import opened Exposure
  import opened Contacts

  /** The plane at height z cuts the sphere of atom i. */
  predicate InSlice(xyz: seq<Coord>, radii: seq<real>, z: real, i: nat)
    requires i < |xyz| && |radii| == |xyz|
  {
    Abs(xyz[i].z - z) < radii[i]
  }

  /** The atoms below k that the plane cuts, in increasing order: the
      first entries of idx. */
  function Selected(xyz: seq<Coord>, radii: seq<real>, z: real, k: nat): (s: seq<nat>)
    requires k <= |xyz| && |radii| == |xyz|
    ensures |s| <= k && forall p :: 0 <= p < |s| ==> s[p] < k
  {
    if k == 0 then []
    else Selected(xyz, radii, z, k - 1) + (if InSlice(xyz, radii, z, k - 1) then [k - 1] else [])
  }

  /** Position of atom j among the cut atoms: xdi[j]. */
  function Rank(xyz: seq<Coord>, radii: seq<real>, z: real, j: nat): nat
    requires j <= |xyz| && |radii| == |xyz|
  {
    |Selected(xyz, radii, z, j)|
  }

  lemma {:induction false} SelectedMembers(xyz: seq<Coord>, radii: seq<real>, z: real, k: nat, x: nat)
    requires k <= |xyz| && |radii| == |xyz|
    ensures x in Selected(xyz, radii, z, k) <==> x < k && InSlice(xyz, radii, z, x)
  {
    if k > 0 {
      SelectedMembers(xyz, radii, z, k - 1, x);
    }
  }

  /** The selection is increasing and each earlier selection is a prefix of
      a later one. */
  lemma {:induction false} SelectedPrefix(xyz: seq<Coord>, radii: seq<real>, z: real, j: nat, k: nat)
    requires j <= k <= |xyz| && |radii| == |xyz|
    ensures Selected(xyz, radii, z, j) <= Selected(xyz, radii, z, k)
  {
    if j < k {
      SelectedPrefix(xyz, radii, z, j, k - 1);
    }
  }

  lemma {:induction false} SelectedIncreasing(xyz: seq<Coord>, radii: seq<real>, z: real, k: nat)
    requires k <= |xyz| && |radii| == |xyz|
    ensures Increasing(Selected(xyz, radii, z, k))
    ensures forall p :: 0 <= p < |Selected(xyz, radii, z, k)| ==> Selected(xyz, radii, z, k)[p] < k
  {
    if k > 0 {
      SelectedIncreasing(xyz, radii, z, k - 1);
    }
  }

  /** idx and xdi are inverse: the cut atom j sits at position Rank(j) of
      the selection, and the atom at position p has rank p. */
  lemma RankInverse(xyz: seq<Coord>, radii: seq<real>, z: real, k: nat, j: nat, p: nat)
    requires k <= |xyz| && |radii| == |xyz|
    ensures j < k && InSlice(xyz, radii, z, j) ==>
      Rank(xyz, radii, z, j) < |Selected(xyz, radii, z, k)| && Selected(xyz, radii, z, k)[Rank(xyz, radii, z, j)] == j
    ensures p < |Selected(xyz, radii, z, k)| ==>
      Selected(xyz, radii, z, k)[p] < k && InSlice(xyz, radii, z, Selected(xyz, radii, z, k)[p]) &&
      Rank(xyz, radii, z, Selected(xyz, radii, z, k)[p]) == p
  {
    var s := Selected(xyz, radii, z, k);
    if j < k && InSlice(xyz, radii, z, j) {
      SelectedPrefix(xyz, radii, z, j + 1, k);
    }
    if p < |s| {
      SelectedIncreasing(xyz, radii, z, k);
      var x := s[p];
      SelectedMembers(xyz, radii, z, k, x);
      SelectedPrefix(xyz, radii, z, x + 1, k);
      var r := Rank(xyz, radii, z, x);
      assert s[r] == x;
    }
  }

  /** Rank is strictly increasing on the cut atoms. */
  lemma RankMonotone(xyz: seq<Coord>, radii: seq<real>, z: real, j1: nat, j2: nat)
    requires j1 < j2 < |xyz| && |radii| == |xyz| && InSlice(xyz, radii, z, j1)
    ensures Rank(xyz, radii, z, j1) < Rank(xyz, radii, z, j2)
  {
    SelectedPrefix(xyz, radii, z, j1 + 1, j2);
  }

  /** A neighbour list of the three-dimensional contacts, restricted to the
      cut atoms and renumbered by Rank, in the same order: nb_slice. */
  function Local(xyz: seq<Coord>, radii: seq<real>, z: real, list: seq<nat>): (s: seq<nat>)
    requires |radii| == |xyz| && forall q :: 0 <= q < |list| ==> list[q] < |xyz|
    ensures |s| <= |list|
  {
    if |list| == 0 then []
    else
      var j := list[|list| - 1];
      Local(xyz, radii, z, list[..|list| - 1]) + (if InSlice(xyz, radii, z, j) then [Rank(xyz, radii, z, j)] else [])
  }

  /** Circle p is a neighbour of circle q in the slice exactly when atom
      idx[p] is a neighbour of atom idx[q]: the slice sees the contact
      graph induced on the cut atoms. */
  lemma {:induction false} LocalMembers(xyz: seq<Coord>, radii: seq<real>, z: real, list: seq<nat>, p: nat)
    requires |radii| == |xyz| && forall q :: 0 <= q < |list| ==> list[q] < |xyz|
    requires p < |Selected(xyz, radii, z, |xyz|)|
    ensures p in Local(xyz, radii, z, list) <==> Selected(xyz, radii, z, |xyz|)[p] in list
  {
    if |list| > 0 {
      var j := list[|list| - 1];
      var init := list[..|list| - 1];
      LocalMembers(xyz, radii, z, init, p);
      assert list == init + [j];
      RankInverse(xyz, radii, z, |xyz|, j, p);
    }
  }

  /** Restriction keeps an increasing list increasing, and every entry is a
      circle of the slice, below the rank just past the last atom listed. */
  lemma {:induction false} LocalIncreasing(xyz: seq<Coord>, radii: seq<real>, z: real, list: seq<nat>)
    requires |radii| == |xyz| && forall q :: 0 <= q < |list| ==> list[q] < |xyz|
    requires Increasing(list)
    ensures Increasing(Local(xyz, radii, z, list))
    ensures forall q :: 0 <= q < |Local(xyz, radii, z, list)| ==>
      Local(xyz, radii, z, list)[q] < |Selected(xyz, radii, z, |xyz|)|
    ensures |list| > 0 ==> forall q :: 0 <= q < |Local(xyz, radii, z, list)| ==>
      Local(xyz, radii, z, list)[q] < Rank(xyz, radii, z, list[|list| - 1] + 1)
  {
    if |list| > 0 {
      var j := list[|list| - 1];
      var init := list[..|list| - 1];
      LocalIncreasing(xyz, radii, z, init);
      SelectedPrefix(xyz, radii, z, j + 1, |xyz|);
      SelectedPrefix(xyz, radii, z, j, j + 1);
      if |init| > 0 {
        assert init[|init| - 1] < j;
        SelectedPrefix(xyz, radii, z, init[|init| - 1] + 1, j);
      }
    }
  }

  /** An increasing list of numbers below b has at most b entries. */
  lemma {:induction false} IncreasingBound(s: seq<nat>, b: nat)
    requires Increasing(s) && forall q :: 0 <= q < |s| ==> s[q] < b
    ensures |s| <= b
  {
    if |s| > 0 {
      var init := s[..|s| - 1];
      assert forall q :: 0 <= q < |init| ==> init[q] < s[|s| - 1];
      IncreasingBound(init, s[|s| - 1]);
    }
  }

  /** Radius of the circle a plane at distance d from the centre cuts from
      a sphere of radius ri. */
  function CircleRadius(m: Libm, ri: real, d: real): real
  {
    m.sqrt(ri * ri - d * d)
  }

  /** The factor DR by which the exposed arc of a circle of radius rs is
      weighted: ri / rs times the part of the slab of thickness delta around
      the plane that lies inside the sphere. */
  function SlabWeight(ri: real, rs: real, d: real, delta: real): real
    requires rs != 0.0
  {
    ri / rs * (delta / 2.0 + Min(delta / 2.0, ri - d))
  }

  lemma MulPositive(u: real, v: real)
    requires u > 0.0 && v > 0.0
    ensures u * v > 0.0
  {
  }

  /** A plane closer to the centre than the radius cuts a circle of positive
      radius. */
  lemma CircleRadiusPositive(m: Libm, ri: real, d: real)
    requires SqrtSound(m) && 0.0 <= d < ri
    ensures CircleRadius(m, ri, d) > 0.0
  {
    assert ri * ri - d * d == (ri - d) * (ri + d);
    MulPositive(ri - d, ri + d);
  }

  /** Radius of the circle the plane at height z cuts from atom a. */
  function CutRadius(m: Libm, xyz: seq<Coord>, radii: seq<real>, z: real, a: nat): real
    requires a < |xyz| && |radii| == |xyz|
  {
    CircleRadius(m, radii[a], Abs(xyz[a].z - z))
  }

  lemma CutRadiusPositive(m: Libm, xyz: seq<Coord>, radii: seq<real>, z: real, a: nat)
    requires a < |xyz| && |radii| == |xyz| && SqrtSound(m) && InSlice(xyz, radii, z, a)
    ensures CutRadius(m, xyz, radii, z, a) > 0.0
  {
    CircleRadiusPositive(m, radii[a], Abs(xyz[a].z - z));
  }

  /** Weight of the exposed arc of atom a in the slice at height z. */
  function CutWeight(m: Libm, xyz: seq<Coord>, radii: seq<real>, z: real, delta: real, a: nat): real
    requires a < |xyz| && |radii| == |xyz| && SqrtSound(m) && InSlice(xyz, radii, z, a)
  {
    CutRadiusPositive(m, xyz, radii, z, a);
    SlabWeight(radii[a], CutRadius(m, xyz, radii, z, a), Abs(xyz[a].z - z), delta)
  }

  /** The neighbour lists of the whole molecule as sasa_get_contacts leaves
      them: atom i lists nn[i] other atoms, in increasing order. */
  ghost predicate ContactShape(n: nat, nb: seq<seq<nat>>, nn: seq<nat>)
  {
    |nb| == n && |nn| == n &&
    forall i :: 0 <= i < n ==>
      nn[i] <= |nb[i]| && Increasing(nb[i][..nn[i]]) &&
      forall q :: 0 <= q < nn[i] ==> nb[i][q] < n && nb[i][q] != i
  }

  /** The first nn[a] entries of the list of atom a. */
  function Listed(nb: seq<seq<nat>>, nn: seq<nat>, a: nat): (l: seq<nat>)
    requires ContactShape(|nb|, nb, nn) && a < |nb|
    ensures forall q :: 0 <= q < |l| ==> l[q] < |nb|
  {
    nb[a][..nn[a]]
  }

  /** The circles of the slice at height z, in the form sasa_exposed_arcs
      takes them. */
  ghost function SliceOf(m: Libm, xyz: seq<Coord>, radii: seq<real>, nb: seq<seq<nat>>, nn: seq<nat>, z: real): Circles
    requires |radii| == |xyz| && ContactShape(|xyz|, nb, nn)
  {
    var s := Selected(xyz, radii, z, |xyz|);
    var ns := |s|;
    Circles(seq(ns, k requires 0 <= k < ns => xyz[s[k]].x),
            seq(ns, k requires 0 <= k < ns => xyz[s[k]].y),
            seq(ns, k requires 0 <= k < ns => CutRadius(m, xyz, radii, z, s[k])),
            seq(ns, k requires 0 <= k < ns => Local(xyz, radii, z, Listed(nb, nn, s[k]))),
            seq(ns, k requires 0 <= k < ns => |Local(xyz, radii, z, Listed(nb, nn, s[k]))|))
  }

  /** The slice meets what sasa_exposed_arcs needs of its input: every
      restricted neighbour is another circle of the slice, and no circle has
      more neighbours than the slice has circles. */
  lemma SliceValid(m: Libm, xyz: seq<Coord>, radii: seq<real>, nb: seq<seq<nat>>, nn: seq<nat>, z: real)
    requires |radii| == |xyz| && ContactShape(|xyz|, nb, nn) && SqrtSound(m)
    ensures Valid(SliceOf(m, xyz, radii, nb, nn, z))
  {
    var c := SliceOf(m, xyz, radii, nb, nn, z);
    var s := Selected(xyz, radii, z, |xyz|);
    var ns := |s|;
    forall k | 0 <= k < ns
      ensures c.r[k] >= 0.0 && c.nn[k] <= |c.nb[k]| && c.nn[k] <= ns
      ensures forall q :: 0 <= q < c.nn[k] ==> c.nb[k][q] < ns && c.nb[k][q] != k
    {
      RankInverse(xyz, radii, z, |xyz|, 0, k);
      CutRadiusPositive(m, xyz, radii, z, s[k]);
      var list := Listed(nb, nn, s[k]);
      LocalIncreasing(xyz, radii, z, list);
      IncreasingBound(Local(xyz, radii, z, list), ns);
      LocalMembers(xyz, radii, z, list, k);
      assert s[k] !in list;
    }
  }

  /** The area an exposed arc adds: arc times circle radius times weight. */
  function Weighted(arc: real, r: real, w: real): real { arc * r * w }

  /** What the slice at height z adds to the area of atom a, given the
      exposed arcs of its circles: nothing when the plane misses the atom. */
  ghost function SliceGain(m: Libm, xyz: seq<Coord>, radii: seq<real>, z: real, delta: real, arcs: seq<real>, a: nat): real
    requires a < |xyz| && |radii| == |xyz| && SqrtSound(m) && |arcs| == |Selected(xyz, radii, z, |xyz|)|
  {
    if InSlice(xyz, radii, z, a) then
      RankInverse(xyz, radii, z, |xyz|, a, 0);
      Weighted(arcs[Rank(xyz, radii, z, a)], CutRadius(m, xyz, radii, z, a), CutWeight(m, xyz, radii, z, delta, a))
    else 0.0
  }

  /** The first ns entries of the circle buffers describe the cut atoms
      idx[..ns]: centre, radius and weight of each. */
  ghost predicate Circled(m: Libm, xyz: seq<Coord>, radii: seq<real>, z: real, delta: real,
                          x: seq<real>, y: seq<real>, r: seq<real>, dr: seq<real>, idx: seq<nat>, ns: nat)
    requires |radii| == |xyz| && SqrtSound(m)
  {
    ns <= |x| && ns <= |y| && ns <= |r| && ns <= |dr| && ns <= |idx| &&
    forall k :: 0 <= k < ns ==>
      idx[k] < |xyz| && InSlice(xyz, radii, z, idx[k]) &&
      x[k] == xyz[idx[k]].x && y[k] == xyz[idx[k]].y && r[k] == CutRadius(m, xyz, radii, z, idx[k]) &&
      dr[k] == CutWeight(m, xyz, radii, z, delta, idx[k])
  }

  /** Appending the circle of cut atom i keeps the buffers circled. */
  lemma CircledExtend(m: Libm, xyz: seq<Coord>, radii: seq<real>, z: real, delta: real,
                      x: seq<real>, y: seq<real>, r: seq<real>, dr: seq<real>, idx: seq<nat>, ns: nat, i: nat)
    requires |radii| == |xyz| && SqrtSound(m) && i < |xyz| && InSlice(xyz, radii, z, i)
    requires Circled(m, xyz, radii, z, delta, x, y, r, dr, idx, ns)
    requires ns < |x| && ns < |y| && ns < |r| && ns < |dr| && ns < |idx|
    ensures Circled(m, xyz, radii, z, delta,
                    x[ns := xyz[i].x], y[ns := xyz[i].y], r[ns := CutRadius(m, xyz, radii, z, i)],
                    dr[ns := CutWeight(m, xyz, radii, z, delta, i)], idx[ns := i], ns + 1)
  {
  }

  /** The state of the first loop of sasa_add_slice_area after the atoms
      below i: the ns cut atoms among them are idx[..ns], with their
      circles, their flags and their xdi entries. */
  ghost predicate Picked(m: Libm, xyz: seq<Coord>, radii: seq<real>, z: real, delta: real, i: nat, ns: nat,
                         x: seq<real>, y: seq<real>, r: seq<real>, dr: seq<real>,
                         idx: seq<nat>, xdi: seq<nat>, inSlice: seq<bool>)
    requires |radii| == |xyz| && SqrtSound(m) && i <= |xyz|
  {
    ns == |Selected(xyz, radii, z, i)| && ns <= |idx| && idx[..ns] == Selected(xyz, radii, z, i) &&
    Circled(m, xyz, radii, z, delta, x, y, r, dr, idx, ns) &&
    i <= |inSlice| && i <= |xdi| &&
    (forall j :: 0 <= j < i ==> inSlice[j] == InSlice(xyz, radii, z, j)) &&
    (forall j :: 0 <= j < i && InSlice(xyz, radii, z, j) ==> xdi[j] < ns && idx[xdi[j]] == j)
  }

  /** Stores the circle of cut atom i at position ns of the circle buffers
      (src/sasa_lr.c:228-233). */
  method PlaceCircle(m: Libm, xyz: seq<Coord>, radii: seq<real>, z: real, delta: real, i: nat, ns: nat,
                     x: array<real>, y: array<real>, r: array<real>, dr: array<real>, ghost idx: seq<nat>)
    requires |radii| == |xyz| && SqrtSound(m) && i < |xyz| && InSlice(xyz, radii, z, i)
    requires x != y && x != r && x != dr && y != r && y != dr && r != dr
    requires ns < x.Length && ns < y.Length && ns < r.Length && ns < dr.Length && ns < |idx|
    requires Circled(m, xyz, radii, z, delta, x[..], y[..], r[..], dr[..], idx, ns)
    modifies x, y, r, dr
    ensures Circled(m, xyz, radii, z, delta, x[..], y[..], r[..], dr[..], idx[ns := i], ns + 1)
  {
    var ri := radii[i];
    var d := Abs(xyz[i].z - z);
    ghost var X, Y, R, DR := x[..], y[..], r[..], dr[..];
    CircledExtend(m, xyz, radii, z, delta, X, Y, R, DR, idx, ns, i);
    x[ns], y[ns] := xyz[i].x, xyz[i].y;
    r[ns] := CircleRadius(m, ri, d);
    CircleRadiusPositive(m, ri, d);
    dr[ns] := SlabWeight(ri, r[ns], d, delta);
    assert x[..] == X[ns := xyz[i].x] && y[..] == Y[ns := xyz[i].y];
    assert r[..] == R[ns := CutRadius(m, xyz, radii, z, i)] && dr[..] == DR[ns := CutWeight(m, xyz, radii, z, delta, i)];
  }

  /** One pass of the first loop of sasa_add_slice_area (src/sasa_lr.c:224-241)
      for atom i. */
  method Pick(m: Libm, xyz: seq<Coord>, radii: seq<real>, z: real, delta: real, i: nat, ns0: nat,
              x: array<real>, y: array<real>, r: array<real>, dr: array<real>,
              idx: array<nat>, xdi: array<nat>, inSlice: array<bool>)
      returns (ns: nat)
    requires |radii| == |xyz| && SqrtSound(m) && i < |xyz|
    requires x.Length == y.Length == r.Length == dr.Length == idx.Length == xdi.Length == inSlice.Length == |xyz|
    requires x != y && x != r && x != dr && y != r && y != dr && r != dr && idx != xdi
    requires Picked(m, xyz, radii, z, delta, i, ns0, x[..], y[..], r[..], dr[..], idx[..], xdi[..], inSlice[..])
    modifies x, y, r, dr, idx, xdi, inSlice
    ensures Picked(m, xyz, radii, z, delta, i + 1, ns, x[..], y[..], r[..], dr[..], idx[..], xdi[..], inSlice[..])
  {
    ns := ns0;
    var ri := radii[i];
    var d := Abs(xyz[i].z - z);
    ghost var I, XDI, IN := idx[..], xdi[..], inSlice[..];
    assert ns < |I| by {
      SelectedMembers(xyz, radii, z, i, i);
      IncreasingBound(Selected(xyz, radii, z, i), i) by { SelectedIncreasing(xyz, radii, z, i); }
    }
    if d < ri {
      PlaceCircle(m, xyz, radii, z, delta, i, ns, x, y, r, dr, I);
      idx[ns] := i;
      xdi[i] := ns;
      ns := ns + 1;
      inSlice[i] := true;
      assert idx[..] == I[ns0 := i] && xdi[..] == XDI[i := ns0] && inSlice[..] == IN[i := true];
      assert idx[..ns] == I[..ns0] + [i];
    } else {
      inSlice[i] := false;
      assert inSlice[..] == IN[i := false];
    }
  }

  /** The first loop of sasa_add_slice_area (src/sasa_lr.c:223-242): picks
      the atoms the plane cuts, in increasing order, with the centre, radius
      and weight of each circle, the maps idx and xdi between atoms and
      circles, and the in_slice flags. */
  method SelectSlice(m: Libm, xyz: seq<Coord>, radii: seq<real>, z: real, delta: real)
      returns (ns: nat, x: array<real>, y: array<real>, r: array<real>, dr: array<real>,
               idx: array<nat>, xdi: array<nat>, inSlice: array<bool>)
    requires |radii| == |xyz| && SqrtSound(m)
    ensures fresh(x) && fresh(y) && fresh(r) && fresh(dr) && fresh(idx) && fresh(xdi) && fresh(inSlice)
    ensures x.Length == y.Length == r.Length == dr.Length == idx.Length == xdi.Length == inSlice.Length == |xyz|
    ensures ns <= |xyz| && idx[..ns] == Selected(xyz, radii, z, |xyz|)
    ensures Circled(m, xyz, radii, z, delta, x[..], y[..], r[..], dr[..], idx[..], ns)
    ensures forall j :: 0 <= j < |xyz| ==> inSlice[j] == InSlice(xyz, radii, z, j)
    ensures forall j :: 0 <= j < |xyz| && InSlice(xyz, radii, z, j) ==> xdi[j] == Rank(xyz, radii, z, j)
  {
    var n := |xyz|;
    x, y, r, dr := new real[n], new real[n], new real[n], new real[n];
    idx, xdi, inSlice := new nat[n], new nat[n], new bool[n];
    ns := 0;
    for i := 0 to n
      invariant Picked(m, xyz, radii, z, delta, i, ns, x[..], y[..], r[..], dr[..], idx[..], xdi[..], inSlice[..])
    {
      ns := Pick(m, xyz, radii, z, delta, i, ns, x, y, r, dr, idx, xdi, inSlice);
    }
    forall j | 0 <= j < n && InSlice(xyz, radii, z, j)
      ensures xdi[j] == Rank(xyz, radii, z, j)
    {
      RankInverse(xyz, radii, z, n, j, xdi[j]);
    }
  }

  /** The second loop of sasa_add_slice_area (src/sasa_lr.c:243-258): the
      neighbour list of each circle is the list of its atom restricted to
      cut atoms and renumbered through xdi. */
  method RestrictLists(xyz: seq<Coord>, radii: seq<real>, z: real, nb: seq<seq<nat>>, nn: seq<nat>,
                       ns: nat, idx: array<nat>, xdi: array<nat>, inSlice: array<bool>)
      returns (nbS: array<seq<nat>>, nnS: array<nat>)
    requires |radii| == |xyz| && ContactShape(|xyz|, nb, nn)
    requires idx.Length == xdi.Length == inSlice.Length == |xyz| && ns <= |xyz|
    requires idx[..ns] == Selected(xyz, radii, z, |xyz|)
    requires forall j :: 0 <= j < |xyz| ==> inSlice[j] == InSlice(xyz, radii, z, j)
    requires forall j :: 0 <= j < |xyz| && InSlice(xyz, radii, z, j) ==> xdi[j] == Rank(xyz, radii, z, j)
    ensures fresh(nbS) && fresh(nnS) && nbS.Length == nnS.Length == |xyz|
    ensures forall k :: 0 <= k < ns ==>
      nbS[k] == Local(xyz, radii, z, Listed(nb, nn, idx[k])) && nnS[k] == |nbS[k]|
  {
    var n := |xyz|;
    nbS := new seq<nat>[n](_ => []);
    nnS := new nat[n](_ => 0);
    for i := 0 to ns
      invariant forall k :: 0 <= k < i ==>
        nbS[k] == Local(xyz, radii, z, Listed(nb, nn, idx[k])) && nnS[k] == |nbS[k]|
    {
      var i2 := idx[i];
      assert i2 == Selected(xyz, radii, z, n)[i];
      var list := nb[i2][..nn[i2]];
      assert list == Listed(nb, nn, idx[i]);
      var row, count := RestrictRow(xyz, radii, z, list, xdi, inSlice);
      nbS[i], nnS[i] := row, count;
    }
  }

  /** The inner loop of src/sasa_lr.c:249-256: keeps the neighbours of one
      cut atom that the plane also cuts, each under its slice index. */
  method RestrictRow(xyz: seq<Coord>, radii: seq<real>, z: real, list: seq<nat>, xdi: array<nat>, inSlice: array<bool>)
      returns (row: seq<nat>, count: nat)
    requires |radii| == |xyz| == xdi.Length == inSlice.Length
    requires forall q :: 0 <= q < |list| ==> list[q] < |xyz|
    requires forall j :: 0 <= j < |xyz| ==> inSlice[j] == InSlice(xyz, radii, z, j)
    requires forall j :: 0 <= j < |xyz| && InSlice(xyz, radii, z, j) ==> xdi[j] == Rank(xyz, radii, z, j)
    ensures row == Local(xyz, radii, z, list) && count == |row|
  {
    row, count := [], 0;
    for j := 0 to |list|
      invariant row == Local(xyz, radii, z, list[..j]) && count == |row|
    {
      var j2 := list[j];
      assert list[..j + 1][..j] == list[..j];
      if inSlice[j2] {
        count := count + 1;
        row := row + [xdi[j2]];
      }
    }
    assert list[..|list|] == list;
  }

  /** What sasa_exposed_arcs asserts of the occluded arcs holds in the
      slice at height z. */
  ghost predicate SliceRegular(m: Libm, xyz: seq<Coord>, radii: seq<real>, nb: seq<seq<nat>>, nn: seq<nat>, z: real)
    requires |radii| == |xyz| && ContactShape(|xyz|, nb, nn) && SqrtSound(m)
  {
    SliceValid(m, xyz, radii, nb, nn, z);
    Regular(m, SliceOf(m, xyz, radii, nb, nn, z))
  }

  /** What the slice at height z promises: the exposed arc of every circle
      meets the promises of sasa_exposed_arcs, and every atom gains the
      weighted arc of its circle, or nothing when the plane misses it. */
  ghost predicate SliceAdds(m: Libm, xyz: seq<Coord>, radii: seq<real>, nb: seq<seq<nat>>, nn: seq<nat>,
                            z: real, delta: real, arcs: seq<real>, gain: seq<real>)
    requires |radii| == |xyz| && ContactShape(|xyz|, nb, nn) && SqrtSound(m)
  {
    var c := SliceOf(m, xyz, radii, nb, nn, z);
    SliceValid(m, xyz, radii, nb, nn, z);
    |arcs| == |c.r| && |gain| == |xyz| &&
    (SliceRegular(m, xyz, radii, nb, nn, z) ==> forall p :: 0 <= p < |arcs| ==> Done(m, c, p, arcs[p])) &&
    forall a :: 0 <= a < |xyz| ==> gain[a] == SliceGain(m, xyz, radii, z, delta, arcs, a)
  }

  /** The buffers that the first two loops of sasa_add_slice_area fill
      describe exactly the slice at height z. */
  lemma Built(m: Libm, xyz: seq<Coord>, radii: seq<real>, nb: seq<seq<nat>>, nn: seq<nat>, z: real, delta: real,
              ns: nat, x: seq<real>, y: seq<real>, r: seq<real>, dr: seq<real>, idx: seq<nat>,
              nbS: seq<seq<nat>>, nnS: seq<nat>)
    requires |radii| == |xyz| && ContactShape(|xyz|, nb, nn) && SqrtSound(m)
    requires ns <= |idx| && idx[..ns] == Selected(xyz, radii, z, |xyz|)
    requires Circled(m, xyz, radii, z, delta, x, y, r, dr, idx, ns)
    requires ns <= |nbS| && ns <= |nnS|
    requires forall k :: 0 <= k < ns ==> nbS[k] == Local(xyz, radii, z, Listed(nb, nn, idx[k])) && nnS[k] == |nbS[k]|
    ensures Circles(x[..ns], y[..ns], r[..ns], nbS[..ns], nnS[..ns]) == SliceOf(m, xyz, radii, nb, nn, z)
  {
    var c := SliceOf(m, xyz, radii, nb, nn, z);
    assert x[..ns] == c.x && y[..ns] == c.y && r[..ns] == c.r && nbS[..ns] == c.nb && nnS[..ns] == c.nn;
  }

  /** What the first i circles of the slice have added to atom a. */
  ghost function Added(m: Libm, xyz: seq<Coord>, radii: seq<real>, z: real, delta: real, arcs: seq<real>, i: nat, a: nat): real
    requires a < |xyz| && |radii| == |xyz| && SqrtSound(m) && |arcs| == |Selected(xyz, radii, z, |xyz|)|
  {
    if InSlice(xyz, radii, z, a) && Rank(xyz, radii, z, a) < i then SliceGain(m, xyz, radii, z, delta, arcs, a) else 0.0
  }

  /** Circle i adds to its own atom only, and adds that atom's gain. */
  lemma AddedStep(m: Libm, xyz: seq<Coord>, radii: seq<real>, z: real, delta: real, arcs: seq<real>, i: nat, a: nat)
    requires a < |xyz| && |radii| == |xyz| && SqrtSound(m) && |arcs| == |Selected(xyz, radii, z, |xyz|)|
    requires i < |arcs|
    ensures a == Selected(xyz, radii, z, |xyz|)[i] ==> (InSlice(xyz, radii, z, a) &&
      Added(m, xyz, radii, z, delta, arcs, i + 1, a) == Added(m, xyz, radii, z, delta, arcs, i, a) + SliceGain(m, xyz, radii, z, delta, arcs, a) &&
      SliceGain(m, xyz, radii, z, delta, arcs, a) ==
        Weighted(arcs[i], CutRadius(m, xyz, radii, z, a), CutWeight(m, xyz, radii, z, delta, a)))
    ensures a != Selected(xyz, radii, z, |xyz|)[i] ==>
      Added(m, xyz, radii, z, delta, arcs, i + 1, a) == Added(m, xyz, radii, z, delta, arcs, i, a)
  {
    RankInverse(xyz, radii, z, |xyz|, a, i);
  }

  /** Once every circle is counted each atom has received its gain. */
  lemma AddedAll(m: Libm, xyz: seq<Coord>, radii: seq<real>, z: real, delta: real, arcs: seq<real>, a: nat)
    requires a < |xyz| && |radii| == |xyz| && SqrtSound(m) && |arcs| == |Selected(xyz, radii, z, |xyz|)|
    ensures Added(m, xyz, radii, z, delta, arcs, |arcs|, a) == SliceGain(m, xyz, radii, z, delta, arcs, a)
  {
    RankInverse(xyz, radii, z, |xyz|, a, 0);
  }

  /** The last loop of sasa_add_slice_area (src/sasa_lr.c:263-265): adds
      the weighted exposed arc of each circle to the area of its atom. */
  method Accumulate(m: Libm, xyz: seq<Coord>, radii: seq<real>, z: real, delta: real, ns: nat,
                    idx: array<nat>, r: array<real>, dr: array<real>, exposed: array<real>, sasa: array<real>)
    requires |radii| == |xyz| == sasa.Length && SqrtSound(m)
    requires ns <= idx.Length && ns <= exposed.Length && idx[..ns] == Selected(xyz, radii, z, |xyz|)
    requires ns <= r.Length && ns <= dr.Length && sasa != exposed && sasa != r && sasa != dr
    requires forall k :: 0 <= k < ns ==>
      idx[k] < |xyz| && InSlice(xyz, radii, z, idx[k]) &&
      r[k] == CutRadius(m, xyz, radii, z, idx[k]) && dr[k] == CutWeight(m, xyz, radii, z, delta, idx[k])
    modifies sasa
    ensures forall a :: 0 <= a < |xyz| ==>
      sasa[a] == old(sasa[a]) + SliceGain(m, xyz, radii, z, delta, exposed[..ns], a)
  {
    var n := |xyz|;
    ghost var arcs := exposed[..ns];
    for i := 0 to ns
      invariant forall a :: 0 <= a < n ==> sasa[a] == old(sasa[a]) + Added(m, xyz, radii, z, delta, arcs, i, a)
    {
      ghost var P := sasa[..];
      var k := idx[i];
      assert k == Selected(xyz, radii, z, n)[i] && arcs[i] == exposed[i];
      assert r[i] == CutRadius(m, xyz, radii, z, k) && dr[i] == CutWeight(m, xyz, radii, z, delta, k);
      sasa[k] := sasa[k] + Weighted(exposed[i], r[i], dr[i]);
      assert sasa[..] == P[k := P[k] + Weighted(exposed[i], r[i], dr[i])];
      forall a | 0 <= a < n
        ensures sasa[a] == old(sasa[a]) + Added(m, xyz, radii, z, delta, arcs, i + 1, a)
      {
        AddedStep(m, xyz, radii, z, delta, arcs, i, a);
      }
    }
    forall a | 0 <= a < n
      ensures sasa[a] == old(sasa[a]) + SliceGain(m, xyz, radii, z, delta, arcs, a)
    {
      AddedAll(m, xyz, radii, z, delta, arcs, a);
    }
  }

  /** sasa_add_slice_area (src/sasa_lr.c:212-268): cuts the molecule with
      the plane at height z, computes the exposed arc of every circle, and
      adds exposed arc times radius times weight to the area of its atom;
      no other atom changes. */
  method AddSliceArea(m: Libm, z: real, xyz: seq<Coord>, radii: seq<real>, nb: seq<seq<nat>>, nn: seq<nat>,
                      delta: real, sasa: array<real>)
      returns (ghost arcs: seq<real>, ghost gain: seq<real>)
    requires |radii| == |xyz| == sasa.Length && ContactShape(|xyz|, nb, nn) && SqrtSound(m)
    requires SliceRegular(m, xyz, radii, nb, nn, z)
    modifies sasa
    ensures SliceAdds(m, xyz, radii, nb, nn, z, delta, arcs, gain)
    ensures forall a :: 0 <= a < |xyz| ==> sasa[a] == old(sasa[a]) + gain[a]
  {
    var n := |xyz|;
    var ns, x, y, r, dr, idx, xdi, inSlice := SelectSlice(m, xyz, radii, z, delta);
    var nbS, nnS := RestrictLists(xyz, radii, z, nb, nn, ns, idx, xdi, inSlice);
    Built(m, xyz, radii, nb, nn, z, delta, ns, x[..], y[..], r[..], dr[..], idx[..], nbS[..], nnS[..]);
    var c := Circles(x[..ns], y[..ns], r[..ns], nbS[..ns], nnS[..ns]);
    SliceValid(m, xyz, radii, nb, nn, z);
    var exposed := new real[n];
    ExposedArcs(c, exposed, m);
    arcs := exposed[..ns];
    gain := seq(n, a requires 0 <= a < n => SliceGain(m, xyz, radii, z, delta, arcs, a));
    Accumulate(m, xyz, radii, z, delta, ns, idx, r, dr, exposed, sasa);
  }
}
