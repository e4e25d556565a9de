/** The brute-force neighbour search of the Lee & Richards calculation
    (sasa_get_contacts in src/sasa_lr.c). */
module Contacts {
  import opened Geometry

  /** Atoms i and j are different and their spheres overlap, decided by the
      pair test of the source. */
  predicate Touch(xyz: seq<Coord>, radii: seq<real>, i: nat, j: nat)
    requires i < |xyz| && j < |xyz| && |radii| == |xyz|
  {
    i != j && PairTest(xyz[i], radii[i], xyz[j], radii[j])
  }

  /** The atoms below k that touch atom i, in increasing order. */
  function Upto(xyz: seq<Coord>, radii: seq<real>, i: nat, k: nat): (s: seq<nat>)
    requires i < |xyz| && k <= |xyz| && |radii| == |xyz|
    ensures |s| <= k
  {
    if k == 0 then []
    else Upto(xyz, radii, i, k - 1) + (if Touch(xyz, radii, i, k - 1) then [k - 1] else [])
  }

  /** The neighbour list of atom i. */
  function Neighbours(xyz: seq<Coord>, radii: seq<real>, i: nat): seq<nat>
    requires i < |xyz| && |radii| == |xyz|
  {
    Upto(xyz, radii, i, |xyz|)
  }

  predicate Increasing(s: seq<nat>)
  {
    forall p, q :: 0 <= p < q < |s| ==> s[p] < s[q]
  }

  /** Upto holds exactly the touching atoms below k. */
  lemma {:induction false} UptoMembers(xyz: seq<Coord>, radii: seq<real>, i: nat, k: nat, x: nat)
    requires i < |xyz| && k <= |xyz| && |radii| == |xyz|
    ensures x in Upto(xyz, radii, i, k) <==> x < k && Touch(xyz, radii, i, x)
  {
    if k > 0 {
      UptoMembers(xyz, radii, i, k - 1, x);
    }
  }

  /** Upto is strictly increasing and bounded by k. */
  lemma {:induction false} UptoIncreasing(xyz: seq<Coord>, radii: seq<real>, i: nat, k: nat)
    requires i < |xyz| && k <= |xyz| && |radii| == |xyz|
    ensures Increasing(Upto(xyz, radii, i, k))
    ensures forall p :: 0 <= p < |Upto(xyz, radii, i, k)| ==> Upto(xyz, radii, i, k)[p] < k
  {
    if k > 0 {
      UptoIncreasing(xyz, radii, i, k - 1);
    }
  }

  /** The pair test of atoms i and j does not depend on their order. */
  lemma TouchSymmetric(xyz: seq<Coord>, radii: seq<real>, i: nat, j: nat)
    requires i < |xyz| && j < |xyz| && |radii| == |xyz|
    ensures Touch(xyz, radii, i, j) == Touch(xyz, radii, j, i)
  {
    PairTestSymmetric(xyz[i], radii[i], xyz[j], radii[j]);
  }

  /** A pair is in contact exactly when the atoms are different and their
      squared centre distance is below the squared sum of their radii: the
      axis pre-filter changes nothing. */
  lemma NeighbourExactly(xyz: seq<Coord>, radii: seq<real>, i: nat, j: nat)
    requires i < |xyz| && j < |xyz| && |radii| == |xyz|
    ensures j in Neighbours(xyz, radii, i) <==>
      i != j && Dist2(xyz[i], xyz[j]) < (radii[i] + radii[j]) * (radii[i] + radii[j])
  {
    UptoMembers(xyz, radii, i, |xyz|, j);
    PrefilterSound(xyz[i], radii[i], xyz[j], radii[j]);
  }

  /** The contact relation is symmetric and irreflexive, and every list is
      strictly increasing, so no atom is listed twice. */
  lemma NeighboursShape(xyz: seq<Coord>, radii: seq<real>, i: nat, j: nat)
    requires i < |xyz| && j < |xyz| && |radii| == |xyz|
    ensures j in Neighbours(xyz, radii, i) <==> i in Neighbours(xyz, radii, j)
    ensures i !in Neighbours(xyz, radii, i)
    ensures Increasing(Neighbours(xyz, radii, i))
  {
    UptoMembers(xyz, radii, i, |xyz|, j);
    UptoMembers(xyz, radii, j, |xyz|, i);
    UptoMembers(xyz, radii, i, |xyz|, i);
    TouchSymmetric(xyz, radii, i, j);
    UptoIncreasing(xyz, radii, i, |xyz|);
  }

  /** How far the list of atom k has grown while row i of the pair scan is
      at column j: rows below i are complete, row i has all columns below
      j, and later atoms have heard from rows up to i, and from row i
      itself once column j has passed them. */
  function Reach(n: nat, i: nat, j: nat, k: nat): nat
  {
    if k < i then n else if k == i then j else if k < j then i + 1 else i
  }

  /** Every list has the length its count says and holds the contacts
      found so far in the pair scan, row i at column j. */
  ghost predicate Grown(xyz: seq<Coord>, radii: seq<real>, nb: seq<seq<nat>>, nn: seq<nat>, i: nat, j: nat)
    requires |radii| == |xyz|
  {
    |nb| == |xyz| && |nn| == |xyz| &&
    forall k :: 0 <= k < |xyz| ==>
      Reach(|xyz|, i, j, k) <= |xyz| && nb[k] == Upto(xyz, radii, k, Reach(|xyz|, i, j, k)) && nn[k] == |nb[k]|
  }

  /** One column of the pair scan: a touching pair extends both lists,
      any other pair leaves them as they are. */
  lemma GrownStep(xyz: seq<Coord>, radii: seq<real>, nb: seq<seq<nat>>, nn: seq<nat>, i: nat, j: nat)
    requires |radii| == |xyz| && i < j < |xyz| && Grown(xyz, radii, nb, nn, i, j)
    ensures Touch(xyz, radii, i, j) ==>
      Grown(xyz, radii, nb[i := nb[i] + [j]][j := nb[j] + [i]], nn[i := nn[i] + 1][j := nn[j] + 1], i, j + 1)
    ensures !Touch(xyz, radii, i, j) ==> Grown(xyz, radii, nb, nn, i, j + 1)
  {
    TouchSymmetric(xyz, radii, i, j);
    var n := |xyz|;
    assert Reach(n, i, j + 1, i) == j + 1 && Reach(n, i, j + 1, j) == i + 1;
    assert forall k :: 0 <= k < n && k != i && k != j ==> Reach(n, i, j + 1, k) == Reach(n, i, j, k);
  }

  /** Row i of the pair scan, from column i + 1 to the end. */
  method ScanRow(xyz: seq<Coord>, radii: seq<real>, nb: array<seq<nat>>, nn: array<nat>, i: nat)
    requires |radii| == |xyz| == nb.Length == nn.Length && i < |xyz|
    requires Grown(xyz, radii, nb[..], nn[..], i, i + 1)
    modifies nb, nn
    ensures Grown(xyz, radii, nb[..], nn[..], i, |xyz|)
  {
    var n := |xyz|;
    var ri, pi := radii[i], xyz[i];
    for j := i + 1 to n
      invariant Grown(xyz, radii, nb[..], nn[..], i, j)
    {
      GrownStep(xyz, radii, nb[..], nn[..], i, j);
      if PairTest(pi, ri, xyz[j], radii[j]) {
        ghost var NB, NN := nb[..], nn[..];
        nn[i] := nn[i] + 1;
        nn[j] := nn[j] + 1;
        nb[i] := nb[i] + [j];
        nb[j] := nb[j] + [i];
        assert nb[..] == NB[i := NB[i] + [j]][j := NB[j] + [i]];
        assert nn[..] == NN[i := NN[i] + 1][j := NN[j] + 1];
      }
    }
  }

  /** sasa_get_contacts (src/sasa_lr.c:412-441): clears every list, then
      scans the pairs i < j in row order and appends each pair that passes
      the pair test to both lists. */
  method GetContacts(xyz: seq<Coord>, radii: seq<real>, nb: array<seq<nat>>, nn: array<nat>)
    requires |radii| == |xyz| == nb.Length == nn.Length
    modifies nb, nn
    ensures forall k :: 0 <= k < |xyz| ==> nb[k] == Neighbours(xyz, radii, k) && nn[k] == |nb[k]|
  {
    var n := |xyz|;
    for i := 0 to n
      invariant forall k :: 0 <= k < i ==> nb[k] == [] && nn[k] == 0
    {
      nn[i] := 0;
      nb[i] := [];
    }
    assert Grown(xyz, radii, nb[..], nn[..], 0, 0);
    for i := 0 to n
      invariant Grown(xyz, radii, nb[..], nn[..], i, i)
    {
      assert Touch(xyz, radii, i, i) == false;
      assert Grown(xyz, radii, nb[..], nn[..], i, i + 1);
      ScanRow(xyz, radii, nb, nn, i);
      assert forall k :: 0 <= k < n ==> Reach(n, i, n, k) == Reach(n, i + 1, i + 1, k);
    }
  }
}
