/** Shared vocabulary of the Lee & Richards model: the constant PI, atom
    coordinates, the abstract floating-point library, and the contact test
    that both neighbour searches apply to a pair of atoms. */
module Geometry {

  /** The value src/sasa_lr.c gives PI when the C library does not. */
  const PI: real := 3.14159265358979323846

  datatype Coord = Coord(x: real, y: real, z: real)

  datatype Option<T> = None | Some(value: T)

  /** The transcendental calls of the source, left uninterpreted: every
      member that uses one takes the library as a parameter, so each
      property proved holds for any implementation of these calls. */
  datatype Libm = Libm(sqrt: real -> real, acos: real -> real, atan2: (real, real) -> real)

  /** What the model needs of sqrt: it never returns a negative number, and
      a positive argument has a positive root. */
  ghost predicate SqrtSound(m: Libm)
  {
    (forall v :: v >= 0.0 ==> m.sqrt(v) >= 0.0) &&
    (forall v :: v > 0.0 ==> m.sqrt(v) > 0.0)
  }

  function Sq(v: real): real { v * v }

  function Abs(v: real): real { if v < 0.0 then -v else v }

  function Min(u: real, v: real): real { if u < v then u else v }

  function Max(u: real, v: real): real { if u > v then u else v }

  /** Squared centre distance of two atoms. */
  function Dist2(p: Coord, q: Coord): real
  {
    Sq(q.x - p.x) + Sq(q.y - p.y) + Sq(q.z - p.z)
  }

  /** The pair test of src/sasa_lr.c:423-435 and src/nb.c:330-337: the three
      axis pre-filters reject first, then the squared distance decides. */
  predicate PairTest(p: Coord, rp: real, q: Coord, rq: real)
  {
    var cut2 := (rp + rq) * (rp + rq);
    if Sq(q.x - p.x) > cut2 || Sq(q.y - p.y) > cut2 || Sq(q.z - p.z) > cut2 then false
    else Sq(q.x - p.x) + Sq(q.y - p.y) + Sq(q.z - p.z) < cut2
  }

  /** The axis pre-filter only skips pairs the distance test would reject:
      a pair passes exactly when the spheres overlap. */
  lemma PrefilterSound(p: Coord, rp: real, q: Coord, rq: real)
    ensures PairTest(p, rp, q, rq) <==> Dist2(p, q) < (rp + rq) * (rp + rq)
  {
    var dx, dy, dz := q.x - p.x, q.y - p.y, q.z - p.z;
    assert Sq(dx) >= 0.0 && Sq(dy) >= 0.0 && Sq(dz) >= 0.0;
  }

  /** The pair test does not depend on which atom comes first. */
  lemma PairTestSymmetric(p: Coord, rp: real, q: Coord, rq: real)
    ensures PairTest(p, rp, q, rq) == PairTest(q, rq, p, rp)
  {
    assert Sq(q.x - p.x) == Sq(p.x - q.x);
    assert Sq(q.y - p.y) == Sq(p.y - q.y);
    assert Sq(q.z - p.z) == Sq(p.z - q.z);
    assert (rp + rq) * (rp + rq) == (rq + rp) * (rq + rp);
  }
}
