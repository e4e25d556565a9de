/** The arc merger of the Lee & Richards slice computation
    (sasa_sum_angles and sasa_exposed_arcs in src/sasa_lr.c). */
module Arcs {
  import opened Geometry

  /** One occluded interval of a circle as sasa_sum_angles stores it: the
      half-width `half` (alpha) around the polar angle `mid` (beta). */
  datatype Arc = Arc(half: real, mid: real)

  /** k whole turns of the circle. */
  function Turn(k: int): real { 2.0 * PI * k as real }

  /** f contains g moved by k turns. */
  ghost predicate CoversAt(f: Arc, g: Arc, k: int)
  {
    f.mid - f.half <= g.mid + Turn(k) - g.half && g.mid + Turn(k) + g.half <= f.mid + f.half
  }

  /** f contains g once g is moved by some whole number of turns. */
  ghost predicate Covers(f: Arc, g: Arc)
  {
    exists k: int :: CoversAt(f, g, k)
  }

  /** g moved by k turns does not meet f. */
  ghost predicate ClearAt(f: Arc, g: Arc, k: int)
  {
    Abs(g.mid + Turn(k) - f.mid) > f.half + g.half
  }

  /** No copy of g, moved by any whole number of turns, meets f. */
  ghost predicate Apart(f: Arc, g: Arc)
  {
    forall k: int :: ClearAt(f, g, k)
  }

  ghost predicate PairwiseApart(fs: seq<Arc>)
  {
    forall p, q :: 0 <= p < |fs| && 0 <= q < |fs| && p != q ==> Apart(fs[p], fs[q])
  }

  ghost predicate AllPositive(fs: seq<Arc>)
  {
    forall p :: 0 <= p < |fs| ==> fs[p].half > 0.0
  }

  /** Sum of the half-widths; the buried angle is twice this. */
  function HalfSum(fs: seq<Arc>): real
  {
    if |fs| == 0 then 0.0 else HalfSum(fs[..|fs| - 1]) + fs[|fs| - 1].half
  }

  /** The half-widths and the centres of a list of arcs, as the two
      buffers sasa_sum_angles takes. */
  function Halves(fs: seq<Arc>): (r: seq<real>)
    ensures |r| == |fs| && forall p :: 0 <= p < |fs| ==> r[p] == fs[p].half
  {
    seq(|fs|, p requires 0 <= p < |fs| => fs[p].half)
  }

  function Mids(fs: seq<Arc>): (r: seq<real>)
    ensures |r| == |fs| && forall p :: 0 <= p < |fs| ==> r[p] == fs[p].mid
  {
    seq(|fs|, p requires 0 <= p < |fs| => fs[p].mid)
  }

  lemma TurnAdd(k1: int, k2: int)
    ensures Turn(k1 + k2) == Turn(k1) + Turn(k2)
  {
  }

  lemma CoversRefl(f: Arc)
    ensures Covers(f, f)
  {
    assert CoversAt(f, f, 0);
  }

  /** Covering composes: the turns add up. */
  lemma CoversTrans(f: Arc, g: Arc, h: Arc)
    requires Covers(f, g) && Covers(g, h)
    ensures Covers(f, h)
  {
    var k1 :| CoversAt(f, g, k1);
    var k2 :| CoversAt(g, h, k2);
    TurnAdd(k2, k1);
    assert CoversAt(f, h, k2 + k1);
  }

  /** A covering arc is at least as wide as what it covers. */
  lemma CoversWider(f: Arc, g: Arc)
    requires Covers(f, g)
    ensures f.half >= g.half
  {
    var k :| CoversAt(f, g, k);
  }

  lemma {:induction false} HalfSumNonneg(fs: seq<Arc>)
    requires AllPositive(fs)
    ensures HalfSum(fs) >= 0.0
  {
    if |fs| > 0 {
      HalfSumNonneg(fs[..|fs| - 1]);
    }
  }

  /** With positive half-widths, the sum is at least any one of them. */
  lemma {:induction false} HalfSumAtLeast(fs: seq<Arc>, f: Arc)
    requires AllPositive(fs) && f in fs
    ensures HalfSum(fs) >= f.half
  {
    var last := fs[|fs| - 1];
    var init := fs[..|fs| - 1];
    HalfSumNonneg(init);
    if f != last {
      assert f in init by {
        var p :| 0 <= p < |fs| && fs[p] == f;
        assert init[p] == f;
      }
      HalfSumAtLeast(init, f);
    }
  }

  /** x lies on f, taken as an interval of the real line. */
  ghost predicate OnArc(x: real, f: Arc)
  {
    f.mid - f.half <= x <= f.mid + f.half
  }

  /** x, moved by k turns, lies on input arc p, the arc (a0[p], b0[p]). */
  ghost predicate HitAt(x: real, a0: seq<real>, b0: seq<real>, p: int, k: int)
  {
    0 <= p < |a0| && p < |b0| && OnArc(x + Turn(k), Arc(a0[p], b0[p]))
  }

  /** The point at angle x of the circle lies on some input arc. */
  ghost predicate Shadowed(x: real, a0: seq<real>, b0: seq<real>)
  {
    exists p: int, k: int :: HitAt(x, a0, b0, p, k)
  }

  /** Every point of f lies on some input arc: f is part of their union. */
  ghost predicate Within(f: Arc, a0: seq<real>, b0: seq<real>)
  {
    forall x :: OnArc(x, f) ==> Shadowed(x, a0, b0)
  }

  ghost predicate AllWithin(fs: seq<Arc>, a0: seq<real>, b0: seq<real>)
  {
    forall p :: 0 <= p < |fs| ==> Within(fs[p], a0, b0)
  }

  /** The input arcs cover the whole circle. */
  ghost predicate Full(a0: seq<real>, b0: seq<real>)
  {
    forall x :: Shadowed(x, a0, b0)
  }

  /** fin describes the union of the inputs exactly: positive arcs,
      pairwise apart, each input covered by one of them, and every point of
      them on some input. */
  ghost predicate Tiling(fin: seq<Arc>, a0: seq<real>, b0: seq<real>)
  {
    AllPositive(fin) && PairwiseApart(fin) && CoveredBy(fin, a0, b0) && AllWithin(fin, a0, b0)
  }

  /** r is the angle the input arcs leave free: 0 when they cover the whole
      circle, otherwise 2*PI minus the total width of a tiling of their
      union. */
  ghost predicate FreeLength(r: real, a0: seq<real>, b0: seq<real>)
  {
    (r == 0.0 && Full(a0, b0)) ||
    exists fin :: Tiling(fin, a0, b0) && r == 2.0 * PI - 2.0 * HalfSum(fin)
  }

  /** Whether a point lies on the union does not depend on the turn it is
      written in. */
  lemma ShadowedShift(x: real, w: int, a0: seq<real>, b0: seq<real>)
    requires Shadowed(x, a0, b0)
    ensures Shadowed(x + Turn(w), a0, b0)
  {
    var p, k :| HitAt(x, a0, b0, p, k);
    TurnAdd(w, k - w);
    assert HitAt(x + Turn(w), a0, b0, p, k - w);
  }

  /** Every input arc is part of the union. */
  lemma InputsWithin(a0: seq<real>, b0: seq<real>)
    requires |a0| == |b0|
    ensures forall k :: 0 <= k < |a0| ==> Within(Arc(a0[k], b0[k]), a0, b0)
  {
    forall k, x | 0 <= k < |a0| && OnArc(x, Arc(a0[k], b0[k]))
      ensures Shadowed(x, a0, b0)
    {
      assert HitAt(x, a0, b0, k, 0);
    }
  }

  /** An arc moved by whole turns stays part of the union. */
  lemma WithinMoved(f: Arc, w: int, a0: seq<real>, b0: seq<real>)
    requires Within(f, a0, b0)
    ensures Within(Arc(f.half, f.mid + Turn(w)), a0, b0)
  {
    forall x | OnArc(x, Arc(f.half, f.mid + Turn(w)))
      ensures Shadowed(x, a0, b0)
    {
      TurnAdd(w, -w);
      var y := x + Turn(-w);
      assert OnArc(y, f);
      ShadowedShift(y, w, a0, b0);
      assert y + Turn(w) == x;
    }
  }

  /** The hull of two overlapping arcs of the union is part of the union:
      on the real line it is their union. */
  lemma WithinJoin(ai: real, bi: real, aj: real, bj: real, a0: seq<real>, b0: seq<real>)
    requires Within(Arc(ai, bi), a0, b0) && Within(Arc(aj, bj), a0, b0)
    requires Abs(bj - bi) <= ai + aj
    ensures Within(Join(ai, bi, aj, bj), a0, b0)
  {
    var u := Join(ai, bi, aj, bj);
    forall x | OnArc(x, u)
      ensures Shadowed(x, a0, b0)
    {
      if !OnArc(x, Arc(ai, bi)) {
        assert OnArc(x, Arc(aj, bj));
      }
    }
  }

  lemma MulMono(c: real, x: real, y: real)
    requires c > 0.0 && x <= y
    ensures c * x <= c * y
  {
  }

  /** An arc of the union wider than half the circle meets every point in
      some turn: the union is the whole circle. */
  lemma WideFull(u: Arc, a0: seq<real>, b0: seq<real>)
    requires Within(u, a0, b0) && u.half > PI
    ensures Full(a0, b0)
  {
    forall x
      ensures Shadowed(x, a0, b0)
    {
      var q := (u.mid + PI - x) / (2.0 * PI);
      var k := q.Floor;
      MulMono(2.0 * PI, k as real, q);
      MulMono(2.0 * PI, q, k as real + 1.0);
      assert 2.0 * PI * q == u.mid + PI - x;
      var y := x + Turn(k);
      assert OnArc(y, u);
      ShadowedShift(y, -k, a0, b0);
      TurnAdd(k, -k);
    }
  }

  /** Points of the union of arcs that are each part of the union of the
      inputs are points of the latter. */
  lemma ShadowedTrans(x: real, a2: seq<real>, b2: seq<real>, a0: seq<real>, b0: seq<real>)
    requires Shadowed(x, a2, b2)
    requires forall p :: 0 <= p < |a2| && p < |b2| ==> Within(Arc(a2[p], b2[p]), a0, b0)
    ensures Shadowed(x, a0, b0)
  {
    var p, k :| HitAt(x, a2, b2, p, k);
    assert Shadowed(x + Turn(k), a0, b0);
    ShadowedShift(x + Turn(k), -k, a0, b0);
    TurnAdd(k, -k);
  }

  /** Within and Full carry over from arcs that are each part of the union
      of the inputs to the inputs. */
  lemma WithinTrans(fs: seq<Arc>, a2: seq<real>, b2: seq<real>, a0: seq<real>, b0: seq<real>)
    requires forall p :: 0 <= p < |a2| && p < |b2| ==> Within(Arc(a2[p], b2[p]), a0, b0)
    ensures AllWithin(fs, a2, b2) ==> AllWithin(fs, a0, b0)
    ensures Full(a2, b2) ==> Full(a0, b0)
  {
    forall x | Shadowed(x, a2, b2)
      ensures Shadowed(x, a0, b0)
    {
      ShadowedTrans(x, a2, b2, a0, b0);
    }
  }

  /** If the centred difference c - bi of two arcs exceeds the sum of their
      half-widths, no other representative of the difference comes closer:
      the two arcs are apart on the whole circle. */
  lemma ApartFromCentred(ai: real, bi: real, aj: real, bj: real, c: real, k0: int)
    requires c == bj + Turn(k0) && -PI <= c - bi <= PI && Abs(c - bi) > ai + aj
    ensures Apart(Arc(ai, bi), Arc(aj, bj))
  {
    forall k: int
      ensures Abs(bj + Turn(k) - bi) > ai + aj
    {
      var t := k - k0;
      TurnAdd(k0, t);
      assert bj + Turn(k) - bi == (c - bi) + Turn(t);
    }
  }

  /** The re-centring loop of src/sasa_lr.c:358-363: bj is moved by whole
      turns until its difference to bi lies in [-PI, PI]. */
  method Recenter(bi: real, bj0: real) returns (bj: real, d: real)
    ensures d == bj - bi && -PI <= d <= PI
    ensures exists k: int :: bj == bj0 + Turn(k)
  {
    bj := bj0;
    ghost var k: int := 0;
    d := bj - bi;
    while true
      invariant bj == bj0 + Turn(k)
      decreases Excess(bj - bi)
    {
      d := bj - bi;
      if d > PI {
        bj := bj - 2.0 * PI;
        k := k - 1;
      } else if d < -PI {
        bj := bj + 2.0 * PI;
        k := k + 1;
      } else {
        break;
      }
    }
  }

  /** Termination measure of the re-centring loop. */
  function Excess(d: real): int
  {
    (if d > PI || d < -PI then 1 else 0) + Abs(d).Floor
  }

  /** The joint interval of src/sasa_lr.c:368-373: the hull
      [min(inf_i, inf_j), max(sup_i, sup_j)] as half-width and centre. */
  function Join(ai: real, bi: real, aj: real, bj: real): (u: Arc)
    ensures u.mid - u.half <= bi - ai && bi + ai <= u.mid + u.half
    ensures u.mid - u.half <= bj - aj && bj + aj <= u.mid + u.half
    ensures u.mid - u.half == bi - ai || u.mid - u.half == bj - aj
    ensures u.mid + u.half == bi + ai || u.mid + u.half == bj + aj
    ensures u.half >= ai && u.half >= aj
  {
    var inf := if bi - ai < bj - aj then bi - ai else bj - aj;
    var sup := if bi + ai > bj + aj then bi + ai else bj + aj;
    Arc((sup - inf) / 2.0, (inf + sup) / 2.0)
  }

  /** Number of set flags. */
  function Count(s: seq<bool>): (c: nat)
    ensures c <= |s|
  {
    if |s| == 0 then 0 else Count(s[..|s| - 1]) + (if s[|s| - 1] then 1 else 0)
  }

  /** The entries whose flag is not set, in their original order. */
  function Kept<T>(s: seq<T>, ex: seq<bool>): (r: seq<T>)
    requires |s| == |ex|
    ensures |r| == |s| - Count(ex)
  {
    if |s| == 0 then []
    else Kept(s[..|s| - 1], ex[..|ex| - 1]) + (if ex[|ex| - 1] then [] else [s[|s| - 1]])
  }

  lemma {:induction false} CountNone(s: seq<bool>)
    ensures Count(s) == 0 <==> forall k :: 0 <= k < |s| ==> !s[k]
  {
    if |s| > 0 {
      var init := s[..|s| - 1];
      CountNone(init);
      assert forall k :: 0 <= k < |init| ==> init[k] == s[k];
    }
  }

  /** Setting one clear flag raises the count by exactly one. */
  lemma {:induction false} CountSet(s: seq<bool>, j: int)
    requires 0 <= j < |s| && !s[j]
    ensures Count(s[j := true]) == Count(s) + 1
  {
    var t := s[j := true];
    if j < |s| - 1 {
      assert t[..|t| - 1] == s[..|s| - 1][j := true];
      CountSet(s[..|s| - 1], j);
    } else {
      assert t[..|t| - 1] == s[..|s| - 1];
    }
  }

  /** Two distinct clear flags leave room for at most |s| - 2 set ones. */
  lemma {:induction false} CountTwoClear(s: seq<bool>, i: int, j: int)
    requires 0 <= i < |s| && 0 <= j < |s| && i != j && !s[i] && !s[j]
    ensures Count(s) + 2 <= |s|
  {
    var init := s[..|s| - 1];
    if i == |s| - 1 {
      assert !init[j];
      CountOneClear(init, j);
    } else if j == |s| - 1 {
      assert !init[i];
      CountOneClear(init, i);
    } else {
      assert !init[i] && !init[j];
      CountTwoClear(init, i, j);
    }
  }

  lemma {:induction false} CountOneClear(s: seq<bool>, i: int)
    requires 0 <= i < |s| && !s[i]
    ensures Count(s) + 1 <= |s|
  {
    var init := s[..|s| - 1];
    if i < |s| - 1 {
      assert !init[i];
      CountOneClear(init, i);
    }
  }

  /** Entry k of s, when kept, lands at position k - Count(ex[..k]). */
  lemma {:induction false} KeptAt<T>(s: seq<T>, ex: seq<bool>, k: int)
    requires |s| == |ex| && 0 <= k < |s| && !ex[k]
    ensures k - Count(ex[..k]) < |Kept(s, ex)|
    ensures Kept(s, ex)[k - Count(ex[..k])] == s[k]
  {
    var n := |s|;
    if k == n - 1 {
      assert ex[..k] == ex[..n - 1];
    } else {
      var s', ex' := s[..n - 1], ex[..n - 1];
      assert ex'[..k] == ex[..k];
      KeptAt(s', ex', k);
    }
  }

  /** Kept and Count grow by one entry at a time. */
  lemma KeptSnoc<T>(s: seq<T>, ex: seq<bool>, k: int)
    requires |s| == |ex| && 0 <= k < |s|
    ensures Kept(s[..k + 1], ex[..k + 1]) == Kept(s[..k], ex[..k]) + (if ex[k] then [] else [s[k]])
    ensures Count(ex[..k + 1]) == Count(ex[..k]) + (if ex[k] then 1 else 0)
  {
    assert s[..k + 1][..k] == s[..k] && ex[..k + 1][..k] == ex[..k];
  }

  /** Everything kept from positive half-widths is positive. */
  lemma {:induction false} KeptPositive(a: seq<real>, ex: seq<bool>)
    requires |a| == |ex|
    requires forall k :: 0 <= k < |a| && !ex[k] ==> a[k] > 0.0
    ensures forall p :: 0 <= p < |Kept(a, ex)| ==> Kept(a, ex)[p] > 0.0
  {
    if |a| > 0 {
      KeptPositive(a[..|a| - 1], ex[..|ex| - 1]);
    }
  }

  /** Every kept entry comes from a live entry, the same one in two
      sequences kept with the same flags. */
  lemma {:induction false} KeptFrom<T>(s: seq<T>, t: seq<T>, ex: seq<bool>, p: int)
    requires |s| == |t| == |ex| && 0 <= p < |Kept(s, ex)|
    ensures exists o :: 0 <= o < |s| && !ex[o] && Kept(s, ex)[p] == s[o] && Kept(t, ex)[p] == t[o]
  {
    var n := |s|;
    var s', t', ex' := s[..n - 1], t[..n - 1], ex[..n - 1];
    if p < |Kept(s', ex')| {
      KeptFrom(s', t', ex', p);
      var o :| 0 <= o < |s'| && !ex'[o] && Kept(s', ex')[p] == s'[o] && Kept(t', ex')[p] == t'[o];
      assert s'[o] == s[o] && t'[o] == t[o] && ex'[o] == ex[o];
    } else {
      assert !ex[n - 1];
    }
  }

  /** Every live arc is part of the union of the inputs (a0, b0). */
  ghost predicate LiveWithin(a: seq<real>, b: seq<real>, ex: seq<bool>, a0: seq<real>, b0: seq<real>)
  {
    forall k :: 0 <= k < |a| && k < |b| && k < |ex| && !ex[k] ==> Within(Arc(a[k], b[k]), a0, b0)
  }

  /** The kept arcs are live ones, so part of the union of the inputs. */
  lemma KeptWithin(a: seq<real>, b: seq<real>, ex: seq<bool>, a0: seq<real>, b0: seq<real>)
    requires |a| == |b| == |ex| && LiveWithin(a, b, ex, a0, b0)
    ensures forall p :: 0 <= p < |Kept(a, ex)| && p < |Kept(b, ex)| ==> Within(Arc(Kept(a, ex)[p], Kept(b, ex)[p]), a0, b0)
  {
    forall p | 0 <= p < |Kept(a, ex)| && p < |Kept(b, ex)|
      ensures Within(Arc(Kept(a, ex)[p], Kept(b, ex)[p]), a0, b0)
    {
      KeptFrom(a, b, ex, p);
    }
  }

  /** The wrap of src/sasa_lr.c:375-376: a centre above PI is moved down a
      turn, and then one below -PI up a turn. */
  function Wrap(x: real): (y: real)
    ensures y == x || y == x - 2.0 * PI || y == x + 2.0 * PI
    ensures -3.0 * PI <= x <= 3.0 * PI ==> -PI <= y <= PI
  {
    var y := if x > PI then x - 2.0 * PI else x;
    if y < -PI then y + 2.0 * PI else y
  }

  /** Redirects every input owned by j to i (j was merged into i). */
  function Redirect(own: seq<int>, i: int, j: int): (r: seq<int>)
    ensures |r| == |own|
    ensures forall k :: 0 <= k < |own| ==> r[k] == if own[k] == j then i else own[k]
  {
    seq(|own|, k requires 0 <= k < |own| => if own[k] == j then i else own[k])
  }

  /** Arc o is live and covers g. */
  ghost predicate OwnedBy(a: seq<real>, b: seq<real>, ex: seq<bool>, o: int, g: Arc)
  {
    0 <= o < |a| && o < |b| && o < |ex| && !ex[o] && Covers(Arc(a[o], b[o]), g)
  }

  /** Invariant of the merge loop: input arc k of the call (a0[k], b0[k]) is
      covered by the live arc own[k]. */
  ghost predicate Owns(a: seq<real>, b: seq<real>, ex: seq<bool>, own: seq<int>, a0: seq<real>, b0: seq<real>)
  {
    |a| == |b| == |ex| == |own| == |a0| == |b0| &&
    forall k :: 0 <= k < |own| ==> OwnedBy(a, b, ex, own[k], Arc(a0[k], b0[k]))
  }

  /** Excluded arcs have half-width 0, live ones a positive half-width. */
  ghost predicate Shaped(a: seq<real>, ex: seq<bool>)
  {
    |a| == |ex| && forall k :: 0 <= k < |a| ==> if ex[k] then a[k] == 0.0 else a[k] > 0.0
  }

  /** Before any merge every arc owns itself, all arcs are live, and the
      half-widths are positive. */
  lemma Initially(a0: seq<real>, b0: seq<real>, ex: seq<bool>, own: seq<int>)
    requires |a0| == |b0| == |ex| == |own|
    requires forall k :: 0 <= k < |a0| ==> a0[k] > 0.0 && !ex[k] && own[k] == k
    ensures Owns(a0, b0, ex, own, a0, b0) && Shaped(a0, ex) && Count(ex) == 0
  {
    forall k | 0 <= k < |own|
      ensures OwnedBy(a0, b0, ex, own[k], Arc(a0[k], b0[k]))
    {
      CoversRefl(Arc(a0[k], b0[k]));
    }
    CountNone(ex);
  }

  /** One merge of src/sasa_lr.c:368-379 keeps every input covered: arc i is
      replaced by the hull of i and the re-centred j (moved by w turns), and
      j is excluded. */
  lemma MergeStep(a: seq<real>, b: seq<real>, ex: seq<bool>, own: seq<int>, a0: seq<real>, b0: seq<real>,
                  i: int, j: int, k0: int, w: int, u: Arc)
    requires Owns(a, b, ex, own, a0, b0)
    requires 0 <= i < |a| && 0 <= j < |a| && i != j && !ex[i] && !ex[j]
    requires u == Join(a[i], b[i], a[j], b[j] + Turn(k0)) && Shaped(a, ex)
    ensures Owns(a[i := u.half][j := 0.0], b[i := u.mid + Turn(w)], ex[j := true], Redirect(own, i, j), a0, b0)
    ensures Shaped(a[i := u.half][j := 0.0], ex[j := true])
    ensures Count(ex[j := true]) == Count(ex) + 1 <= |ex| - 1
  {
    CountSet(ex, j);
    CountTwoClear(ex, i, j);
    var nu := Arc(u.half, u.mid + Turn(w));
    var oi, oj := Arc(a[i], b[i]), Arc(a[j], b[j]);
    assert Covers(nu, oi) by {
      assert CoversAt(nu, oi, w);
    }
    assert Covers(nu, oj) by {
      TurnAdd(k0, w);
      assert CoversAt(nu, oj, k0 + w);
    }
    var a', b', ex', own' := a[i := u.half][j := 0.0], b[i := u.mid + Turn(w)], ex[j := true], Redirect(own, i, j);
    forall k | 0 <= k < |own'|
      ensures OwnedBy(a', b', ex', own'[k], Arc(a0[k], b0[k]))
    {
      var g := Arc(a0[k], b0[k]);
      if own[k] == i {
        CoversTrans(nu, oi, g);
      } else if own[k] == j {
        CoversTrans(nu, oj, g);
      }
    }
  }

  /** One step of the merge loop, src/sasa_lr.c:356-379, for two live arcs
      i and j: j is re-centred next to i, by k0 turns. The two are merged
      exactly when they are not apart; then i becomes their hull (wrapped
      back into [-PI, PI]) and j is excluded with half-width 0. `wide`
      reports a hull wider than PI, for which the caller returns 0 at once:
      the inputs then cover the whole circle. */
  method Absorb(n: nat, i: nat, j: nat, a: array<real>, b: array<real>, excluded: array<bool>,
                ghost own: seq<int>, ghost a0: seq<real>, ghost b0: seq<real>)
    returns (merged: bool, wide: bool, ghost k0: int, ghost own': seq<int>)
    requires a != b && n <= a.Length && n <= b.Length && excluded.Length == n
    requires i < n && j < n && i != j && !excluded[i] && !excluded[j]
    requires Owns(a[..n], b[..n], excluded[..n], own, a0, b0) && Shaped(a[..n], excluded[..n])
    requires LiveWithin(a[..n], b[..n], excluded[..n], a0, b0)
    modifies a, b, excluded
    ensures merged <==> !Apart(Arc(old(a[i]), old(b[i])), Arc(old(a[j]), old(b[j])))
    ensures merged ==> -PI <= old(b[j]) + Turn(k0) - old(b[i]) <= PI
    ensures merged ==> Abs(old(b[j]) + Turn(k0) - old(b[i])) <= old(a[i]) + old(a[j])
    ensures wide <==> merged && Join(old(a[i]), old(b[i]), old(a[j]), old(b[j]) + Turn(k0)).half > PI
    ensures wide ==> Full(a0, b0)
    ensures !merged ==> own' == own && unchanged(a, b, excluded)
    ensures merged && !wide ==>
      var u := Join(old(a[i]), old(b[i]), old(a[j]), old(b[j]) + Turn(k0));
      a[..n] == old(a[..n])[i := u.half][j := 0.0] && b[..n] == old(b[..n])[i := Wrap(u.mid)] &&
      excluded[..n] == old(excluded[..n])[j := true]
    ensures merged && !wide ==> Owns(a[..n], b[..n], excluded[..n], own', a0, b0) && Shaped(a[..n], excluded[..n])
    ensures merged && !wide ==> LiveWithin(a[..n], b[..n], excluded[..n], a0, b0)
    ensures merged && !wide ==> Count(excluded[..n]) == old(Count(excluded[..n])) + 1 <= n - 1
  {
    own' := own;
    var bi, ai := b[i], a[i];
    var bj, aj := b[j], a[j];
    var d;
    bj, d := Recenter(bi, bj);
    k0 :| bj == b[j] + Turn(k0);
    if Abs(d) > ai + aj {
      ApartFromCentred(ai, bi, aj, b[j], bj, k0);
      return false, false, k0, own';
    }
    assert !ClearAt(Arc(ai, bi), Arc(aj, b[j]), k0);
    merged := true;
    wide, own' := MergeInto(n, i, j, ai, bi, aj, bj, a, b, excluded, own, a0, b0, k0);
  }

  /** The merge itself, src/sasa_lr.c:366-379: arc i becomes the joint
      interval u of i and the re-centred copy (aj, bj) of j. A half-width
      of u above PI is reported as `wide` once u is stored, before the
      centre is wrapped and before j is excluded; otherwise the centre is
      wrapped back into [-PI, PI] and j is excluded with half-width 0. */
  method MergeInto(n: nat, i: nat, j: nat, ai: real, bi: real, aj: real, bj: real,
                   a: array<real>, b: array<real>, excluded: array<bool>,
                   ghost own: seq<int>, ghost a0: seq<real>, ghost b0: seq<real>, ghost k0: int)
    returns (wide: bool, ghost own': seq<int>)
    requires a != b && n <= a.Length && n <= b.Length && excluded.Length == n
    requires i < n && j < n && i != j && !excluded[i] && !excluded[j]
    requires Owns(a[..n], b[..n], excluded[..n], own, a0, b0) && Shaped(a[..n], excluded[..n])
    requires LiveWithin(a[..n], b[..n], excluded[..n], a0, b0)
    requires ai == a[i] && bi == b[i] && aj == a[j] && bj == b[j] + Turn(k0) && Abs(bj - bi) <= ai + aj
    modifies a, b, excluded
    ensures wide <==> Join(ai, bi, aj, bj).half > PI
    ensures wide ==> Full(a0, b0)
    ensures wide ==> a[..n] == old(a[..n])[i := Join(ai, bi, aj, bj).half]
    ensures wide ==> b[..n] == old(b[..n])[i := Join(ai, bi, aj, bj).mid] && excluded[..n] == old(excluded[..n])
    ensures !wide ==> a[..n] == old(a[..n])[i := Join(ai, bi, aj, bj).half][j := 0.0]
    ensures !wide ==> b[..n] == old(b[..n])[i := Wrap(Join(ai, bi, aj, bj).mid)]
    ensures !wide ==> excluded[..n] == old(excluded[..n])[j := true]
    ensures !wide ==> Owns(a[..n], b[..n], excluded[..n], own', a0, b0) && Shaped(a[..n], excluded[..n])
    ensures !wide ==> LiveWithin(a[..n], b[..n], excluded[..n], a0, b0)
    ensures !wide ==> Count(excluded[..n]) == old(Count(excluded[..n])) + 1 <= n - 1
  {
    own' := own;
    ghost var A, B, E := a[..n], b[..n], excluded[..n];
    var u := Join(ai, bi, aj, bj);
    JoinWithin(A, B, E, a0, b0, i, j, k0);
    b[i] := u.mid;
    a[i] := u.half;
    if a[i] > PI {
      WideFull(u, a0, b0);
      assert a[..n] == A[i := u.half] && b[..n] == B[i := u.mid];
      return true, own';
    }
    ghost var w := 0;
    if b[i] > PI {
      b[i] := b[i] - 2.0 * PI;
      w := -1;
    }
    if b[i] < -PI {
      b[i] := b[i] + 2.0 * PI;
      w := w + 1;
    }
    assert b[i] == Wrap(u.mid) == u.mid + Turn(w);
    a[j] := 0.0;
    excluded[j] := true;
    MergeStep(A, B, E, own, a0, b0, i, j, k0, w, u);
    own' := Redirect(own, i, j);
    assert a[..n] == A[i := u.half][j := 0.0];
    assert b[..n] == B[i := u.mid + Turn(w)];
    assert excluded[..n] == E[j := true];
    WithinMoved(u, w, a0, b0);
    MergedWithin(A, B, E, a0, b0, i, j, Arc(u.half, u.mid + Turn(w)));
    wide := false;
  }

  /** The hull of live arc i and the copy of live arc j moved by k0 turns,
      when the two meet, is part of the union of the inputs. */
  lemma JoinWithin(a: seq<real>, b: seq<real>, ex: seq<bool>, a0: seq<real>, b0: seq<real>, i: int, j: int, k0: int)
    requires |a| == |b| == |ex| && 0 <= i < |a| && 0 <= j < |a| && !ex[i] && !ex[j]
    requires LiveWithin(a, b, ex, a0, b0) && Abs(b[j] + Turn(k0) - b[i]) <= a[i] + a[j]
    ensures Within(Join(a[i], b[i], a[j], b[j] + Turn(k0)), a0, b0)
  {
    WithinMoved(Arc(a[j], b[j]), k0, a0, b0);
    WithinJoin(a[i], b[i], a[j], b[j] + Turn(k0), a0, b0);
  }

  /** Replacing live arc i by an arc of the union and excluding j keeps
      every live arc part of the union. */
  lemma MergedWithin(a: seq<real>, b: seq<real>, ex: seq<bool>, a0: seq<real>, b0: seq<real>, i: int, j: int, nu: Arc)
    requires |a| == |b| == |ex| && 0 <= i < |a| && 0 <= j < |a| && i != j
    requires LiveWithin(a, b, ex, a0, b0) && Within(nu, a0, b0)
    ensures LiveWithin(a[i := nu.half][j := 0.0], b[i := nu.mid], ex[j := true], a0, b0)
  {
  }

  /** sasa_sum_angles (src/sasa_lr.c:338-404): the union of the n arcs
      (a[k], b[k]) on the circle, returning 2*PI minus the buried angle.
      Arc i absorbs every live arc j it overlaps; excluded arcs get
      half-width 0; a merged half-width above PI returns 0 at once; if any
      merge happened the live arcs, in their original order, are merged
      again by a recursive call on strictly fewer arcs.
      Ghost results: `total` is set when the early return 0 was taken, and
      then the inputs cover the whole circle; otherwise `fin` is the final
      arc set, a tiling of the union of the inputs (positive, pairwise
      apart on the whole circle, covering every input and covered by the
      inputs together). Inputs that are already pairwise apart are the
      final set themselves. */
  method SumAngles(n: nat, a: array<real>, b: array<real>) returns (r: real, ghost total: bool, ghost fin: seq<Arc>)
    requires a != b && n <= a.Length && n <= b.Length
    requires forall k :: 0 <= k < n ==> a[k] > 0.0
    modifies a, b
    decreases n, 1
    ensures n == 0 ==> !total && r == 2.0 * PI && fin == []
    ensures total ==> r == 0.0 && n >= 2 && Full(old(a[..n]), old(b[..n]))
    ensures !total ==> r == 2.0 * PI - 2.0 * HalfSum(fin) && |fin| <= n
    ensures !total ==> Tiling(fin, old(a[..n]), old(b[..n]))
    ensures RowsApart(old(a[..n]), old(b[..n]), n) ==> !total && Halves(fin) == old(a[..n]) && Mids(fin) == old(b[..n])
    ensures FreeLength(r, old(a[..n]), old(b[..n]))
  {
    ghost var a0, b0 := a[..n], b[..n];
    var excluded, nExc, nOverlap, wide, own := MergeAll(n, a, b);
    if wide {
      r, total, fin := 0.0, true, [];
      FreeLengthOf(r, total, fin, a0, b0);
      assert !RowsApart(a0, b0, n);
      return;
    }

    if nOverlap > 0 {
      r, total, fin := Remerge(n, a, b, excluded, own, a0, b0);
      FreeLengthOf(r, total, fin, a0, b0);
      assert !RowsApart(a0, b0, n);
      return;
    }

    // no overlap: every arc is live, unchanged and apart from the others
    r, fin := FreeAngle(n, a, b, excluded[..n]);
    total := false;
    FreeLengthOf(r, total, fin, a0, b0);
  }

  /** The recursion of src/sasa_lr.c:385-397, taken after some merge: the
      live arcs are compacted and merged again by SumAngles on strictly
      fewer arcs, whose result is returned. What that call promises of the
      kept arcs holds of the inputs (a0, b0) of the merge. */
  method Remerge(n: nat, a: array<real>, b: array<real>, excluded: array<bool>,
                 ghost own: seq<int>, ghost a0: seq<real>, ghost b0: seq<real>)
    returns (r: real, ghost total: bool, ghost fin: seq<Arc>)
    requires n <= a.Length && n <= b.Length && n <= excluded.Length
    requires Owns(a[..n], b[..n], excluded[..n], own, a0, b0) && Shaped(a[..n], excluded[..n])
    requires LiveWithin(a[..n], b[..n], excluded[..n], a0, b0) && Count(excluded[..n]) > 0
    decreases n, 0
    ensures total ==> r == 0.0 && n >= 2 && Full(a0, b0)
    ensures !total ==> r == 2.0 * PI - 2.0 * HalfSum(fin) && |fin| < n && Tiling(fin, a0, b0)
  {
    ghost var A, B, E := a[..n], b[..n], excluded[..n];
    var m, a2, b2 := Compact(n, a, b, excluded);
    ghost var A2, B2 := a2[..m], b2[..m];
    r, total, fin := SumAngles(m, a2, b2);
    Remerged(A, B, E, own, a0, b0, A2, B2, r, total, fin);
  }

  /** Either outcome of SumAngles is a FreeLength of its inputs. */
  lemma FreeLengthOf(r: real, total: bool, fin: seq<Arc>, a0: seq<real>, b0: seq<real>)
    requires total ==> r == 0.0 && Full(a0, b0)
    requires !total ==> r == 2.0 * PI - 2.0 * HalfSum(fin) && Tiling(fin, a0, b0)
    ensures FreeLength(r, a0, b0)
  {
  }

  /** What the recursive call on the kept arcs (A2, B2) promises carries
      over to the inputs (a0, b0) of this call: the kept arcs are live,
      each is part of the union of the inputs, and each input is covered by
      its owner, which was kept. */
  lemma Remerged(A: seq<real>, B: seq<real>, E: seq<bool>, own: seq<int>, a0: seq<real>, b0: seq<real>,
                 A2: seq<real>, B2: seq<real>, r: real, total: bool, fin: seq<Arc>)
    requires Owns(A, B, E, own, a0, b0) && LiveWithin(A, B, E, a0, b0)
    requires A2 == Kept(A, E) && B2 == Kept(B, E)
    requires total ==> r == 0.0 && Full(A2, B2)
    requires !total ==> r == 2.0 * PI - 2.0 * HalfSum(fin) && Tiling(fin, A2, B2)
    ensures total ==> Full(a0, b0)
    ensures !total ==> Tiling(fin, a0, b0)
    ensures FreeLength(r, a0, b0)
  {
    KeptWithin(A, B, E, a0, b0);
    WithinTrans(fin, A2, B2, a0, b0);
    if !total {
      RemergeCovers(A, B, E, own, a0, b0, A2, B2, fin);
    }
    FreeLengthOf(r, total, fin, a0, b0);
  }

  /** Without a merge the final arcs are the inputs themselves: positive,
      pairwise apart and covering themselves. */
  lemma Unmerged(a0: seq<real>, b0: seq<real>, ex: seq<bool>, fin: seq<Arc>)
    requires |a0| == |b0| == |fin| && Shaped(a0, ex) && Count(ex) == 0 && RowsApart(a0, b0, |a0|)
    requires forall p :: 0 <= p < |fin| ==> fin[p] == Arc(a0[p], b0[p])
    ensures Tiling(fin, a0, b0)
  {
    PairwiseFromRows(a0, b0, fin);
    InputsWithin(a0, b0);
    CountNone(ex);
    forall p | 0 <= p < |fin|
      ensures fin[p].half > 0.0
    {
      assert !ex[p];
    }
    forall k | 0 <= k < |fin| && k < |b0|
      ensures CoveredIn(fin, Arc(a0[k], b0[k]))
    {
      CoversRefl(fin[k]);
      assert fin[k] in fin;
    }
  }

  /** Rows 0 .. rows-1 of the pairwise check: each of those arcs is apart
      from every other arc. */
  ghost predicate RowsApart(a: seq<real>, b: seq<real>, rows: int)
  {
    forall p, q :: 0 <= p < rows && p < |a| && p < |b| && 0 <= q < |a| && q < |b| && p != q ==>
      Apart(Arc(a[p], b[p]), Arc(a[q], b[q]))
  }

  /** Arc i is apart from every live arc q < upto other than itself. */
  ghost predicate RowApart(a: seq<real>, b: seq<real>, ex: seq<bool>, i: int, upto: int)
  {
    0 <= i < |a| && i < |b| &&
    forall q :: 0 <= q < upto && q < |a| && q < |b| && q < |ex| && q != i && !ex[q] ==>
      Apart(Arc(a[i], b[i]), Arc(a[q], b[q]))
  }

  /** The row of arc i grows by one column when arc j is i itself, is
      excluded, or is apart from i. */
  lemma RowApartExtend(a: seq<real>, b: seq<real>, ex: seq<bool>, i: int, j: int)
    requires |a| == |b| == |ex| && 0 <= j < |a| && RowApart(a, b, ex, i, j)
    requires j == i || ex[j] || Apart(Arc(a[i], b[i]), Arc(a[j], b[j]))
    ensures RowApart(a, b, ex, i, j + 1)
  {
  }

  /** Row i of the pairwise check extends the rows already checked. */
  lemma ApartRow(a: seq<real>, b: seq<real>, ex: seq<bool>, i: int)
    requires |a| == |b| == |ex| && forall k :: 0 <= k < |ex| ==> !ex[k]
    requires RowsApart(a, b, i) && RowApart(a, b, ex, i, |a|)
    ensures RowsApart(a, b, i + 1)
  {
  }

  /** All rows checked: the arcs, listed as fs, are pairwise apart. */
  lemma PairwiseFromRows(a: seq<real>, b: seq<real>, fs: seq<Arc>)
    requires |a| == |b| == |fs| && RowsApart(a, b, |a|)
    requires forall p :: 0 <= p < |fs| ==> fs[p] == Arc(a[p], b[p])
    ensures PairwiseApart(fs)
  {
  }

  /** The set-up and outer loop of src/sasa_lr.c:343-382: no arc is
      excluded at first; then every live arc i in turn
      absorbs the live arcs it overlaps, until only one live arc is left.
      Without a merge, nothing changes and all arcs are pairwise apart. */
  method MergeAll(n: nat, a: array<real>, b: array<real>)
    returns (excluded: array<bool>, nExc: nat, nOverlap: nat, wide: bool, ghost own: seq<int>)
    requires a != b && n <= a.Length && n <= b.Length
    requires forall k :: 0 <= k < n ==> a[k] > 0.0
    modifies a, b
    ensures fresh(excluded) && excluded.Length == n
    ensures wide ==> n >= 2 && Full(old(a[..n]), old(b[..n]))
    ensures RowsApart(old(a[..n]), old(b[..n]), n) ==> !wide && nOverlap == 0
    ensures !wide ==> LiveWithin(a[..n], b[..n], excluded[..n], old(a[..n]), old(b[..n]))
    ensures !wide ==> Owns(a[..n], b[..n], excluded[..n], own, old(a[..n]), old(b[..n])) && Shaped(a[..n], excluded[..n])
    ensures !wide ==> nExc == nOverlap == Count(excluded[..n]) && (n == 0 || nExc <= n - 1)
    ensures !wide && nOverlap == 0 ==> a[..n] == old(a[..n]) && b[..n] == old(b[..n]) && RowsApart(a[..n], b[..n], n)
  {
    ghost var a0, b0 := a[..n], b[..n];
    excluded := new bool[n](_ => false);
    own := seq(n, k => k);
    assert forall k :: 0 <= k < n ==> !excluded[..n][k];
    Initially(a0, b0, excluded[..n], own);
    InputsWithin(a0, b0);
    nExc, nOverlap, wide := 0, 0, false;
    var i := 0;
    while i < n
      invariant 0 <= i <= n && !wide
      invariant Owns(a[..n], b[..n], excluded[..n], own, a0, b0)
      invariant Shaped(a[..n], excluded[..n]) && LiveWithin(a[..n], b[..n], excluded[..n], a0, b0)
      invariant nExc == nOverlap == Count(excluded[..n])
      invariant n == 0 || nExc <= n - 1
      invariant RowsApart(a0, b0, n) ==> nOverlap == 0
      invariant nOverlap == 0 ==> a[..n] == a0 && b[..n] == b0 && RowsApart(a0, b0, i)
    {
      var stop;
      nExc, nOverlap, wide, stop, own := Row(n, i, a, b, excluded, nExc, nOverlap, own, a0, b0);
      if wide {
        return;
      }
      if stop {
        break;
      }
      i := i + 1;
    }
  }

  /** One pass of the outer loop of src/sasa_lr.c:351-381 for arc i: a live
      arc i sweeps the others, and `stop` reports that only one live arc is
      left. While nothing has been merged, the arcs are the inputs and the
      rows checked so far are apart. */
  method Row(n: nat, i: nat, a: array<real>, b: array<real>, excluded: array<bool>, nExc0: nat, nOverlap0: nat,
             ghost own0: seq<int>, ghost a0: seq<real>, ghost b0: seq<real>)
    returns (nExc: nat, nOverlap: nat, wide: bool, stop: bool, ghost own: seq<int>)
    requires a != b && n <= a.Length && n <= b.Length && excluded.Length == n && i < n
    requires Owns(a[..n], b[..n], excluded[..n], own0, a0, b0) && Shaped(a[..n], excluded[..n])
    requires LiveWithin(a[..n], b[..n], excluded[..n], a0, b0)
    requires nExc0 == nOverlap0 == Count(excluded[..n]) <= n - 1
    requires nOverlap0 == 0 ==> a[..n] == a0 && b[..n] == b0 && RowsApart(a0, b0, i)
    modifies a, b, excluded
    ensures wide ==> n >= 2 && Full(a0, b0)
    ensures RowsApart(a0, b0, n) && nOverlap0 == 0 ==> !wide && nOverlap == 0
    ensures !wide ==> Owns(a[..n], b[..n], excluded[..n], own, a0, b0) && Shaped(a[..n], excluded[..n])
    ensures !wide ==> LiveWithin(a[..n], b[..n], excluded[..n], a0, b0)
    ensures !wide ==> nExc == nOverlap == Count(excluded[..n]) <= n - 1
    ensures !wide && stop ==> nExc == n - 1
    ensures !wide && nOverlap == 0 ==> a[..n] == a0 && b[..n] == b0 && RowsApart(a0, b0, i + 1)
    ensures !wide && nOverlap == 0 && stop ==> i + 1 == n
  {
    nExc, nOverlap, wide, stop, own := nExc0, nOverlap0, false, false, own0;
    ghost var E := excluded[..n];
    if nOverlap == 0 {
      CountNone(E);
      assert !E[i];
      if RowsApart(a0, b0, n) {
        assert RowApart(a[..n], b[..n], E, i, n);
      }
    }
    if !excluded[i] {
      nExc, nOverlap, wide, own := Sweep(n, i, a, b, excluded, nExc, nOverlap, own, a0, b0);
      if wide {
        return;
      }
      if nOverlap == 0 {
        CountNone(E);
        ApartRow(a0, b0, E, i);
      }
      stop := nExc == n - 1;
    }
  }

  /** The final sum of src/sasa_lr.c:399-403, reached when no arcs
      overlap: 2*PI minus twice the half-widths of the first n arcs, which
      are then the final arc set fin. */
  method FreeAngle(n: nat, a: array<real>, b: array<real>, ghost ex: seq<bool>) returns (r: real, ghost fin: seq<Arc>)
    requires n <= a.Length && n <= b.Length
    requires Shaped(a[..n], ex) && Count(ex) == 0 && RowsApart(a[..n], b[..n], n)
    ensures |fin| == n && r == 2.0 * PI - 2.0 * HalfSum(fin)
    ensures Halves(fin) == a[..n] && Mids(fin) == b[..n]
    ensures Tiling(fin, a[..n], b[..n])
  {
    var buried := 0.0;
    fin := [];
    for k := 0 to n
      invariant |fin| == k
      invariant forall p :: 0 <= p < k ==> fin[p] == Arc(a[p], b[p])
      invariant buried == 2.0 * HalfSum(fin)
    {
      buried := buried + 2.0 * a[k];
      assert (fin + [Arc(a[k], b[k])])[..k] == fin;
      fin := fin + [Arc(a[k], b[k])];
    }
    r := 2.0 * PI - buried;
    Unmerged(a[..n], b[..n], ex, fin);
    assert Halves(fin) == a[..n] && Mids(fin) == b[..n];
  }

  /** The inner loop of src/sasa_lr.c:352-381 for one live arc i: every
      other live arc j is offered to Absorb, and the loop stops once all
      arcs but one are excluded. Without a merge nothing changes and arc i
      is apart from every live arc. */
  method Sweep(n: nat, i: nat, a: array<real>, b: array<real>, excluded: array<bool>, nExc0: nat, nOverlap0: nat,
               ghost own0: seq<int>, ghost a0: seq<real>, ghost b0: seq<real>)
    returns (nExc: nat, nOverlap: nat, wide: bool, ghost own: seq<int>)
    requires a != b && n <= a.Length && n <= b.Length && excluded.Length == n
    requires i < n && !excluded[i]
    requires Owns(a[..n], b[..n], excluded[..n], own0, a0, b0) && Shaped(a[..n], excluded[..n])
    requires nExc0 == nOverlap0 == Count(excluded[..n]) <= n - 1
    requires LiveWithin(a[..n], b[..n], excluded[..n], a0, b0)
    modifies a, b, excluded
    ensures wide ==> n >= 2 && Full(a0, b0)
    ensures old(RowApart(a[..n], b[..n], excluded[..n], i, n)) ==> !wide && nExc == nExc0
    ensures !wide ==> Owns(a[..n], b[..n], excluded[..n], own, a0, b0) && Shaped(a[..n], excluded[..n])
    ensures !wide ==> LiveWithin(a[..n], b[..n], excluded[..n], a0, b0)
    ensures !wide ==> nExc == nOverlap == Count(excluded[..n]) <= n - 1 && nExc >= nExc0
    ensures !wide && nExc == nExc0 ==> a[..n] == old(a[..n]) && b[..n] == old(b[..n]) && excluded[..n] == old(excluded[..n])
    ensures !wide && nExc == nExc0 ==> RowApart(a[..n], b[..n], excluded[..n], i, n)
  {
    nExc, nOverlap, wide, own := nExc0, nOverlap0, false, own0;
    ghost var A0, B0, E0 := a[..n], b[..n], excluded[..n];
    ghost var apart := RowApart(A0, B0, E0, i, n);
    var j := 0;
    while j < n
      invariant 0 <= j <= n
      invariant !excluded[i]
      invariant Owns(a[..n], b[..n], excluded[..n], own, a0, b0)
      invariant Shaped(a[..n], excluded[..n]) && LiveWithin(a[..n], b[..n], excluded[..n], a0, b0)
      invariant nExc == nOverlap == Count(excluded[..n]) <= n - 1 && nExc >= nExc0
      invariant apart ==> nExc == nExc0
      invariant nExc == nExc0 ==> a[..n] == A0 && b[..n] == B0 && excluded[..n] == E0
      invariant nExc == nExc0 ==> RowApart(A0, B0, E0, i, j)
    {
      if !excluded[j] && i != j {
        var merged;
        ghost var A, B, E := a[..n], b[..n], excluded[..n];
        ghost var k0;
        merged, wide, k0, own := Absorb(n, i, j, a, b, excluded, own, a0, b0);
        if nExc == nExc0 && apart {
          assert Apart(Arc(A[i], B[i]), Arc(A[j], B[j]));
        }
        if wide {
          return;
        }
        if merged {
          nOverlap := nOverlap + 1;
          nExc := nExc + 1;
          if nExc == n - 1 {
            break;
          }
        } else {
          assert a[..n] == A && b[..n] == B && excluded[..n] == E;
          if nExc == nExc0 {
            RowApartExtend(A, B, E, i, j);
          }
        }
      } else if nExc == nExc0 {
        RowApartExtend(a[..n], b[..n], excluded[..n], i, j);
      }
      j := j + 1;
    }
  }

  /** Some arc of fin covers g. */
  ghost predicate CoveredIn(fin: seq<Arc>, g: Arc)
  {
    exists f :: f in fin && Covers(f, g)
  }

  /** Every arc (a2[p], b2[p]) is covered by an arc of fin. */
  ghost predicate CoveredBy(fin: seq<Arc>, a2: seq<real>, b2: seq<real>)
  {
    forall p :: 0 <= p < |a2| && p < |b2| ==> CoveredIn(fin, Arc(a2[p], b2[p]))
  }

  /** After the recursive call on the compacted arcs, each input of this
      call is still covered: its owner was kept, and the recursion covers
      every kept arc. */
  lemma RemergeCovers(A: seq<real>, B: seq<real>, E: seq<bool>, own: seq<int>, a0: seq<real>, b0: seq<real>,
                      A2: seq<real>, B2: seq<real>, fin: seq<Arc>)
    requires Owns(A, B, E, own, a0, b0)
    requires A2 == Kept(A, E) && B2 == Kept(B, E) && CoveredBy(fin, A2, B2)
    ensures CoveredBy(fin, a0, b0)
  {
    forall k | 0 <= k < |a0| && k < |b0|
      ensures CoveredIn(fin, Arc(a0[k], b0[k]))
    {
      var o := own[k];
      KeptAt(A, E, o);
      KeptAt(B, E, o);
      var p := o - Count(E[..o]);
      assert A2[p] == A[o] && B2[p] == B[o];
      var f :| f in fin && Covers(f, Arc(A2[p], B2[p]));
      CoversTrans(f, Arc(A[o], B[o]), Arc(a0[k], b0[k]));
    }
  }

  /** Writing x at index m extends the prefix before m by x. */
  lemma PrefixWrite(s: seq<real>, s': seq<real>, m: nat, x: real)
    requires m < |s| && s' == s[m := x]
    ensures s'[..m + 1] == s[..m] + [x]
  {
  }

  /** The compaction of src/sasa_lr.c:387-395: copies the live arcs, in
      order, into two fresh arrays. */
  method Compact(n: nat, a: array<real>, b: array<real>, excluded: array<bool>) returns (m: nat, a2: array<real>, b2: array<real>)
    requires n <= a.Length && n <= b.Length && n <= excluded.Length
    requires Shaped(a[..n], excluded[..n])
    ensures fresh(a2) && fresh(b2) && a2 != b2 && a2.Length == n && b2.Length == n
    ensures m == n - Count(excluded[..n])
    ensures a2[..m] == Kept(a[..n], excluded[..n]) && b2[..m] == Kept(b[..n], excluded[..n])
    ensures forall k :: 0 <= k < m ==> a2[k] > 0.0
  {
    ghost var A, B, E := a[..n], b[..n], excluded[..n];
    b2 := new real[n];
    a2 := new real[n];
    m := 0;
    for k := 0 to n
      invariant m == k - Count(E[..k])
      invariant a2[..m] == Kept(A[..k], E[..k])
      invariant b2[..m] == Kept(B[..k], E[..k])
    {
      KeptSnoc(A, E, k);
      KeptSnoc(B, E, k);
      if !excluded[k] {
        ghost var S, T := a2[..], b2[..];
        b2[m] := b[k];
        a2[m] := a[k];
        PrefixWrite(S, a2[..], m, A[k]);
        PrefixWrite(T, b2[..], m, B[k]);
        m := m + 1;
      }
    }
    assert A[..n] == A && B[..n] == B && E[..n] == E;
    KeptPositive(a[..n], excluded[..n]);
    assert forall k :: 0 <= k < m ==> a2[k] == a2[..m][k];
  }
}
