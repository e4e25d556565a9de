/** The exposed arc of every circle of one slice (sasa_exposed_arcs in
    src/sasa_lr.c). */
module Exposure {
  import opened Geometry
  import opened Arcs

  /** The circles of one slice as sasa_add_slice_area hands them over:
      centres (x[i], y[i]), radii r[i], and the neighbours nb[i][..nn[i]]
      of each circle, as indices into the slice. */
  datatype Circles = Circles(x: seq<real>, y: seq<real>, r: seq<real>, nb: seq<seq<nat>>, nn: seq<nat>)

  /** Shape of the slice data: one entry per circle, radii not negative,
      every neighbour another circle of the slice, and at most as many
      neighbours as circles (the size of the arc buffers of the source). */
  ghost predicate Valid(c: Circles)
  {
    var n := |c.r|;
    |c.x| == n && |c.y| == n && |c.nb| == n && |c.nn| == n &&
    forall i :: 0 <= i < n ==>
      c.r[i] >= 0.0 && c.nn[i] <= |c.nb[i]| && c.nn[i] <= n &&
      forall ni :: 0 <= ni < c.nn[i] ==> c.nb[i][ni] < n && c.nb[i][ni] != i
  }

  /** Centre distance of circles i and j. */
  function Dist(m: Libm, c: Circles, i: nat, j: nat): real
    requires i < |c.x| && j < |c.x| && i < |c.y| && j < |c.y|
  {
    m.sqrt(Sq(c.x[j] - c.x[i]) + Sq(c.y[j] - c.y[i]))
  }

  lemma DistSymmetric(m: Libm, c: Circles, i: nat, j: nat)
    requires i < |c.x| && j < |c.x| && i < |c.y| && j < |c.y|
    ensures Dist(m, c, i, j) == Dist(m, c, j, i)
  {
    assert Sq(c.x[j] - c.x[i]) == Sq(c.x[i] - c.x[j]);
    assert Sq(c.y[j] - c.y[i]) == Sq(c.y[i] - c.y[j]);
  }

  /** j is among the first nn[i] neighbours of i. */
  ghost predicate Lists(c: Circles, i: nat, j: nat)
    requires i < |c.nb| && i < |c.nn|
  {
    exists ni :: 0 <= ni < c.nn[i] && ni < |c.nb[i]| && c.nb[i][ni] == j
  }

  /** Circles i and j overlap. */
  predicate Overlap(m: Libm, c: Circles, i: nat, j: nat)
    requires Valid(c) && i < |c.r| && j < |c.r|
  {
    Dist(m, c, i, j) < c.r[i] + c.r[j]
  }

  /** Circle i lies completely inside circle j. */
  predicate Inside(m: Libm, c: Circles, i: nat, j: nat)
    requires Valid(c) && i < |c.r| && j < |c.r|
  {
    Dist(m, c, i, j) + c.r[i] < c.r[j]
  }

  /** The circles overlap and neither lies inside the other: j occludes a
      proper arc of i. */
  predicate Partial(m: Libm, c: Circles, i: nat, j: nat)
    requires Valid(c) && i < |c.r| && j < |c.r|
  {
    var d := Dist(m, c, i, j);
    d < c.r[i] + c.r[j] && !(d + c.r[i] < c.r[j]) && !(d + c.r[j] < c.r[i])
  }

  /** The law of cosines: the cosine of the angle at the centre of a
      circle of radius ri between the centre line and an intersection point
      with a circle of radius rj at distance d. */
  function Cosine(ri: real, rj: real, d: real): real
    requires ri > 0.0 && d > 0.0
  {
    assert 2.0 * ri * d > 0.0;
    (ri * ri + d * d - rj * rj) / (2.0 * ri * d)
  }

  /** Half the arc of i that j occludes. */
  function Alpha(m: Libm, c: Circles, i: nat, j: nat): real
    requires Valid(c) && i < |c.r| && j < |c.r| && Partial(m, c, i, j) && Dist(m, c, i, j) > 0.0
  {
    assert c.r[i] > 0.0;
    m.acos(Cosine(c.r[i], c.r[j], Dist(m, c, i, j)))
  }

  /** Polar angle of the direction from i to j. */
  function Beta(m: Libm, c: Circles, i: nat, j: nat): real
    requires i < |c.x| && j < |c.x| && i < |c.y| && j < |c.y|
  {
    m.atan2(c.y[j] - c.y[i], c.x[j] - c.x[i])
  }

  /** What the source asserts of every occluded arc: the centres differ and
      the half-width is positive. */
  ghost predicate Regular(m: Libm, c: Circles)
    requires Valid(c)
  {
    forall i, ni :: 0 <= i < |c.r| && 0 <= ni < c.nn[i] && Partial(m, c, i, c.nb[i][ni]) ==>
      Dist(m, c, i, c.nb[i][ni]) > 0.0 && Alpha(m, c, i, c.nb[i][ni]) > 0.0
  }

  /** No circle related to i by a neighbour list, in either direction,
      overlaps i. */
  ghost predicate Isolated(m: Libm, c: Circles, i: nat)
    requires Valid(c) && i < |c.r|
  {
    forall j :: 0 <= j < |c.r| && (Lists(c, i, j) || Lists(c, j, i)) ==> !Overlap(m, c, i, j)
  }

  /** Circle i lies inside a circle related to it by a neighbour list, in
      either direction. */
  ghost predicate InsideAny(m: Libm, c: Circles, i: nat)
    requires Valid(c) && i < |c.r|
  {
    exists j :: 0 <= j < |c.r| && (Lists(c, i, j) || Lists(c, j, i)) && Inside(m, c, i, j)
  }

  /** The arcs of i that its first upto neighbours occlude, in the order
      the inner loop of sasa_exposed_arcs stores them: one (Alpha, Beta)
      per partially overlapping neighbour. */
  ghost function Occluded(m: Libm, c: Circles, i: nat, upto: nat): (os: seq<Arc>)
    requires Valid(c) && Regular(m, c) && i < |c.r| && upto <= c.nn[i]
    ensures |os| <= upto && AllPositive(os)
  {
    if upto == 0 then []
    else
      var j := c.nb[i][upto - 1];
      Occluded(m, c, i, upto - 1) + (if Partial(m, c, i, j) then [Arc(Alpha(m, c, i, j), Beta(m, c, i, j))] else [])
  }

  /** No one of the first upto neighbours of i contains i. */
  ghost predicate NoneContains(m: Libm, c: Circles, i: nat, upto: nat)
    requires Valid(c) && i < |c.r| && upto <= c.nn[i]
  {
    forall q :: 0 <= q < upto ==> !Inside(m, c, i, c.nb[i][q])
  }

  /** The arc of every partially overlapping neighbour is among those
      collected. */
  lemma {:induction false} OccludedHas(m: Libm, c: Circles, i: nat, upto: nat, q: nat)
    requires Valid(c) && Regular(m, c) && i < |c.r| && upto <= c.nn[i]
    requires q < upto && Partial(m, c, i, c.nb[i][q])
    ensures Arc(Alpha(m, c, i, c.nb[i][q]), Beta(m, c, i, c.nb[i][q])) in Occluded(m, c, i, upto)
  {
    if q < upto - 1 {
      OccludedHas(m, c, i, upto - 1, q);
    }
  }

  /** The angle left free on circle i: what sasa_sum_angles promises for
      the arcs of i its neighbours occlude. */
  ghost predicate FreeOfOccluded(m: Libm, c: Circles, i: nat, e: real)
    requires Valid(c) && Regular(m, c) && i < |c.r|
  {
    var os := Occluded(m, c, i, c.nn[i]);
    FreeLength(e, Halves(os), Mids(os))
  }

  /** What sasa_exposed_arcs promises about the exposed arc e of circle k:
      at most a full turn; zero when k lies inside a neighbour; a full turn
      when nothing overlaps k; shortened, unless zero, by at least the
      occluded arc of every partially overlapping neighbour; and, when k
      lies inside no related circle, exactly the angle that the arcs of
      its partially overlapping neighbours leave free. When k lies inside
      only a circle that lists k but is not listed by k, which of 0 and
      that angle results depends on the order of the circles. */
  ghost predicate Done(m: Libm, c: Circles, k: nat, e: real)
    requires Valid(c) && Regular(m, c) && k < |c.r|
  {
    e <= 2.0 * PI &&
    (forall ni :: 0 <= ni < c.nn[k] && Inside(m, c, k, c.nb[k][ni]) ==> e == 0.0) &&
    (Isolated(m, c, k) ==> e == 2.0 * PI) &&
    (forall ni :: 0 <= ni < c.nn[k] && Partial(m, c, k, c.nb[k][ni]) ==>
       e == 0.0 || e <= 2.0 * PI - 2.0 * Alpha(m, c, k, c.nb[k][ni])) &&
    (!InsideAny(m, c, k) ==> FreeOfOccluded(m, c, k, e)) &&
    (NoneContains(m, c, k, c.nn[k]) ==> e == 0.0 || FreeOfOccluded(m, c, k, e))
  }

  /** Every circle flagged as completely buried lies inside a related
      circle. */
  ghost predicate Witnessed(m: Libm, c: Circles, buried: seq<bool>)
    requires Valid(c) && |buried| == |c.r|
  {
    forall k :: 0 <= k < |buried| && buried[k] ==> InsideAny(m, c, k)
  }

  /** sasa_exposed_arcs (src/sasa_lr.c:270-336): for each circle i the arcs
      that its partially overlapping neighbours occlude are collected and
      merged by SumAngles; a circle inside a neighbour is flagged buried at
      once, and so is a neighbour that lies inside it; buried circles keep
      exposed arc 0. */
  method ExposedArcs(c: Circles, exposed: array<real>, m: Libm)
    requires Valid(c) && Regular(m, c) && |c.r| <= exposed.Length
    modifies exposed
    ensures forall k :: |c.r| <= k < exposed.Length ==> exposed[k] == old(exposed[k])
    ensures forall k :: 0 <= k < |c.r| ==> Done(m, c, k, exposed[k])
  {
    var n := |c.r|;
    var buried := new bool[n](_ => false);
    for i := 0 to n
      invariant forall k :: n <= k < exposed.Length ==> exposed[k] == old(exposed[k])
      invariant Witnessed(m, c, buried[..])
      invariant forall k :: 0 <= k < i ==> Done(m, c, k, exposed[k])
    {
      ghost var ex0 := exposed[..];
      var e := ArcOf(c, i, buried, m);
      exposed[i] := e;
      assert forall k :: 0 <= k < exposed.Length && k != i ==> exposed[k] == ex0[k];
    }
  }

  /** The arcs of i that its first upto neighbours occlude sit, in order,
      in the first nb entries of a and b. */
  ghost predicate Slotted(m: Libm, c: Circles, i: nat, a: seq<real>, b: seq<real>, upto: nat, nb: nat)
    requires Valid(c) && Regular(m, c) && i < |c.r| && upto <= c.nn[i]
  {
    var os := Occluded(m, c, i, upto);
    nb == |os| && nb <= |a| && nb <= |b| &&
    forall p :: 0 <= p < nb ==> a[p] == os[p].half && b[p] == os[p].mid
  }

  /** The body of the loop of sasa_exposed_arcs for one circle i: returns
      its exposed arc and flags the circles found to be completely buried. */
  method ArcOf(c: Circles, i: nat, buried: array<bool>, m: Libm) returns (e: real)
    requires Valid(c) && Regular(m, c) && i < |c.r| && buried.Length == |c.r|
    requires Witnessed(m, c, buried[..])
    modifies buried
    ensures Witnessed(m, c, buried[..])
    ensures Done(m, c, i, e)
  {
    var n := |c.r|;
    e := 0.0;
    if buried[i] {
      assert buried[..][i];
      ZeroDone(m, c, i);
      return;
    }
    var a := new real[n];
    var b := new real[n];
    var nBuried := Occluders(c, i, buried, a, b, m);
    if buried[i] {
      var q :| 0 <= q < c.nn[i] && Inside(m, c, i, c.nb[i][q]);
      assert Lists(c, i, c.nb[i][q]);
      ZeroDone(m, c, i);
      return;
    }
    ghost var os := Occluded(m, c, i, c.nn[i]);
    ghost var A, B := a[..nBuried], b[..nBuried];
    assert A == Halves(os) && B == Mids(os);
    ghost var total: bool, fin: seq<Arc>;
    e, total, fin := SumAngles(nBuried, a, b);
    MeasuredDone(m, c, i, e, total, fin);
  }

  /** Some partially overlapping neighbour stands behind every collected
      arc. */
  lemma {:induction false} OccludedSome(m: Libm, c: Circles, i: nat, upto: nat)
    requires Valid(c) && Regular(m, c) && i < |c.r| && upto <= c.nn[i]
    requires |Occluded(m, c, i, upto)| > 0
    ensures exists q :: 0 <= q < upto && Partial(m, c, i, c.nb[i][q])
  {
    var j := c.nb[i][upto - 1];
    if !Partial(m, c, i, j) {
      assert Occluded(m, c, i, upto) == Occluded(m, c, i, upto - 1) + [];
      OccludedSome(m, c, i, upto - 1);
    } else {
      assert 0 <= upto - 1 < upto && Partial(m, c, i, c.nb[i][upto - 1]);
    }
  }

  /** A circle inside none of its neighbours, whose exposed arc e is what
      SumAngles returns for the arcs its neighbours occlude, meets every
      promise of Done. */
  lemma MeasuredDone(m: Libm, c: Circles, i: nat, e: real, total: bool, fin: seq<Arc>)
    requires Valid(c) && Regular(m, c) && i < |c.r|
    requires NoneContains(m, c, i, c.nn[i])
    requires var os := Occluded(m, c, i, c.nn[i]);
      (|os| == 0 ==> !total && e == 2.0 * PI) &&
      (total ==> e == 0.0 && Full(Halves(os), Mids(os))) &&
      (!total ==> e == 2.0 * PI - 2.0 * HalfSum(fin) && Tiling(fin, Halves(os), Mids(os)))
    ensures Done(m, c, i, e)
  {
    var os := Occluded(m, c, i, c.nn[i]);
    FreeLengthOf(e, total, fin, Halves(os), Mids(os));
    if |os| > 0 {
      OccludedSome(m, c, i, c.nn[i]);
      var q :| 0 <= q < c.nn[i] && Partial(m, c, i, c.nb[i][q]);
      assert Lists(c, i, c.nb[i][q]);
    }
    if !total {
      TiledBound(m, c, i, fin);
    }
  }

  /** A tiling of the occluded arcs of i is at least as wide as the arc of
      any one partially overlapping neighbour. */
  lemma TiledBound(m: Libm, c: Circles, i: nat, fin: seq<Arc>)
    requires Valid(c) && Regular(m, c) && i < |c.r|
    requires var os := Occluded(m, c, i, c.nn[i]); Tiling(fin, Halves(os), Mids(os))
    ensures forall q :: 0 <= q < c.nn[i] && Partial(m, c, i, c.nb[i][q]) ==>
      2.0 * PI - 2.0 * HalfSum(fin) <= 2.0 * PI - 2.0 * Alpha(m, c, i, c.nb[i][q])
  {
    var os := Occluded(m, c, i, c.nn[i]);
    forall q | 0 <= q < c.nn[i] && Partial(m, c, i, c.nb[i][q])
      ensures HalfSum(fin) >= Alpha(m, c, i, c.nb[i][q])
    {
      var g := Arc(Alpha(m, c, i, c.nb[i][q]), Beta(m, c, i, c.nb[i][q]));
      OccludedHas(m, c, i, c.nn[i], q);
      var p :| 0 <= p < |os| && os[p] == g;
      assert CoveredIn(fin, Arc(Halves(os)[p], Mids(os)[p]));
      var f :| f in fin && Covers(f, g);
      CoversWider(f, g);
      HalfSumAtLeast(fin, f);
    }
  }

  /** A circle inside a related circle, with exposed arc 0, meets every
      promise of Done. */
  lemma ZeroDone(m: Libm, c: Circles, i: nat)
    requires Valid(c) && Regular(m, c) && i < |c.r| && InsideAny(m, c, i)
    ensures Done(m, c, i, 0.0)
  {
    var j :| 0 <= j < |c.r| && (Lists(c, i, j) || Lists(c, j, i)) && Inside(m, c, i, j);
    assert Overlap(m, c, i, j);
  }

  /** The inner loop of sasa_exposed_arcs (src/sasa_lr.c:281-327): walks
      the neighbours of i, stops as soon as i lies inside one, flags a
      neighbour inside i, and stores the occluded arc of every partial
      overlap in a and b. */
  method Occluders(c: Circles, i: nat, buried: array<bool>, a: array<real>, b: array<real>, m: Libm)
      returns (nBuried: nat)
    requires Valid(c) && Regular(m, c) && i < |c.r| && buried.Length == |c.r|
    requires a.Length == |c.r| && b.Length == |c.r| && a != b
    requires Witnessed(m, c, buried[..]) && !buried[i]
    modifies buried, a, b
    ensures nBuried <= c.nn[i] && Witnessed(m, c, buried[..])
    ensures buried[i] ==> exists q :: 0 <= q < c.nn[i] && Inside(m, c, i, c.nb[i][q])
    ensures !buried[i] ==> Slotted(m, c, i, a[..], b[..], c.nn[i], nBuried)
    ensures !buried[i] ==> NoneContains(m, c, i, c.nn[i])
  {
    nBuried := 0;
    var ni := 0;
    while ni < c.nn[i]
      invariant 0 <= ni <= c.nn[i] && nBuried <= ni
      invariant !buried[i] && Witnessed(m, c, buried[..])
      invariant Slotted(m, c, i, a[..], b[..], ni, nBuried)
      invariant NoneContains(m, c, i, ni)
    {
      var inside;
      inside, nBuried := Visit(c, i, ni, buried, a, b, m, nBuried);
      if inside {
        assert 0 <= ni < c.nn[i] && Inside(m, c, i, c.nb[i][ni]);
        return;
      }
      ni := ni + 1;
    }
  }

  /** One pass of the inner loop of sasa_exposed_arcs (src/sasa_lr.c:282-326),
      for neighbour j = nb[i][ni]: skips a circle that does not overlap i,
      reports i inside j, flags j when it lies inside i, and otherwise stores
      the arc of i that j occludes at index nb0. */
  method Visit(c: Circles, i: nat, ni: nat, buried: array<bool>, a: array<real>, b: array<real>, m: Libm,
               nb0: nat)
      returns (inside: bool, nb: nat)
    requires Valid(c) && Regular(m, c) && i < |c.r| && buried.Length == |c.r|
    requires a.Length == |c.r| && b.Length == |c.r| && a != b
    requires ni < c.nn[i] && nb0 <= ni
    requires Witnessed(m, c, buried[..]) && !buried[i]
    requires Slotted(m, c, i, a[..], b[..], ni, nb0)
    modifies buried, a, b
    ensures Witnessed(m, c, buried[..]) && nb0 <= nb <= nb0 + 1
    ensures inside ==> buried[i] && Inside(m, c, i, c.nb[i][ni])
    ensures !inside ==> !buried[i] && !Inside(m, c, i, c.nb[i][ni])
    ensures !inside ==> Slotted(m, c, i, a[..], b[..], ni + 1, nb)
  {
    var ri := c.r[i];
    var j := c.nb[i][ni];
    var rj, xij, yij := c.r[j], c.x[j] - c.x[i], c.y[j] - c.y[i];
    var d := m.sqrt(Sq(xij) + Sq(yij));
    assert d == Dist(m, c, i, j);
    inside, nb := false, nb0;
    if d >= ri + rj {
      SlottedSkip(m, c, i, a[..], b[..], ni, nb0);
    } else if d + ri < rj {
      buried[i] := true;
      WitnessSelf(m, c, buried[..], i, ni);
      inside := true;
    } else if d + rj < ri {
      buried[j] := true;
      WitnessOther(m, c, buried[..], i, ni);
      SlottedSkip(m, c, i, a[..], b[..], ni, nb0);
    } else {
      assert Partial(m, c, i, j);
      assert ri > 0.0 && d > 0.0;
      var alpha := m.acos(Cosine(ri, rj, d));
      var beta := m.atan2(yij, xij);
      assert alpha == Alpha(m, c, i, j) && beta == Beta(m, c, i, j);
      ghost var A, B := a[..], b[..];
      a[nb0] := alpha;
      b[nb0] := beta;
      SlottedAdd(m, c, i, A, B, ni, nb0);
      assert a[..] == A[nb0 := alpha] && b[..] == B[nb0 := beta];
      nb := nb0 + 1;
    }
  }

  /** A neighbour that occludes no proper arc leaves the buffers slotted. */
  lemma SlottedSkip(m: Libm, c: Circles, i: nat, a: seq<real>, b: seq<real>, ni: nat, nb: nat)
    requires Valid(c) && Regular(m, c) && i < |c.r| && ni < c.nn[i]
    requires Slotted(m, c, i, a, b, ni, nb) && !Partial(m, c, i, c.nb[i][ni])
    ensures Slotted(m, c, i, a, b, ni + 1, nb)
  {
    assert Occluded(m, c, i, ni + 1) == Occluded(m, c, i, ni);
  }

  /** Storing the arc of a partial neighbour at index nb keeps the buffers
      slotted. */
  lemma SlottedAdd(m: Libm, c: Circles, i: nat, a: seq<real>, b: seq<real>, ni: nat, nb: nat)
    requires Valid(c) && Regular(m, c) && i < |c.r| && ni < c.nn[i]
    requires Slotted(m, c, i, a, b, ni, nb) && nb < |a| && nb < |b|
    requires Partial(m, c, i, c.nb[i][ni])
    ensures Slotted(m, c, i, a[nb := Alpha(m, c, i, c.nb[i][ni])], b[nb := Beta(m, c, i, c.nb[i][ni])], ni + 1, nb + 1)
  {
    var j := c.nb[i][ni];
    var os := Occluded(m, c, i, ni);
    assert Occluded(m, c, i, ni + 1) == os + [Arc(Alpha(m, c, i, j), Beta(m, c, i, j))];
  }

  /** Flagging i itself, inside neighbour nb[i][ni], keeps the flags witnessed. */
  lemma WitnessSelf(m: Libm, c: Circles, buried: seq<bool>, i: nat, ni: nat)
    requires Valid(c) && i < |c.r| && |buried| == |c.r| && ni < c.nn[i]
    requires Inside(m, c, i, c.nb[i][ni])
    requires forall k :: 0 <= k < |buried| && k != i && buried[k] ==> InsideAny(m, c, k)
    ensures Witnessed(m, c, buried)
  {
    var j := c.nb[i][ni];
    assert Lists(c, i, j);
  }

  /** Flagging the neighbour nb[i][ni] that lies inside i keeps the flags
      witnessed. */
  lemma WitnessOther(m: Libm, c: Circles, buried: seq<bool>, i: nat, ni: nat)
    requires Valid(c) && i < |c.r| && |buried| == |c.r| && ni < c.nn[i]
    requires Inside(m, c, c.nb[i][ni], i)
    requires forall k :: 0 <= k < |buried| && k != c.nb[i][ni] && buried[k] ==> InsideAny(m, c, k)
    ensures Witnessed(m, c, buried)
  {
    var j := c.nb[i][ni];
    assert Lists(c, i, j);
  }
}
